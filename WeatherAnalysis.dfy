/** scripts/weather_analysis.py: the hourly weather table is brought into the
    Fitbit hourly format (match_weather_df: a 12-hour ActivityHour text, an
    AM/PM TimeOfDay and an unpadded m/d/Y Date), the hourly calories and steps
    are joined, the weather is joined onto them, and main() then runs the
    DivideTheDay conversion and blocks over the result before filtering on the
    selected time blocks. */
module WeatherAnalysis {
  import opened Frames
  import opened Clock
  import opened DivideTheDay

  // ---------------------------------------------------------------------------
  // Timestamps and the per-row rules of match_weather_df

  /** A pandas datetime to the second. */
  datatype Timestamp = Timestamp(date: Date, hour: int, minute: int, second: int)

  /** A timestamp pandas can hold (years 1677..2262 in nanosecond resolution). */
  predicate ValidTimestamp(t: Timestamp)
  {
    ValidDate(t.date) && 1677 <= t.date.year <= 2262
    && 0 <= t.hour < 24 && 0 <= t.minute < 60 && 0 <= t.second < 60
  }

  /** Lines 34-36: the hour is copied, 0 becomes 12 and hours above 12 lose 12. */
  function To12Hour(hour: int): (r: int)
    ensures 0 <= hour < 24 ==> 1 <= r <= 12
    ensures 1 <= hour <= 12 ==> r == hour
  {
    var copied := hour;
    var midnight := if hour == 0 then 12 else copied;
    if hour > 12 then hour - 12 else midnight
  }

  /** Lines 38-39: "AM" everywhere, then "PM" where the hour is 12 or later. */
  function TimeOfDayOf(hour: int): (r: string)
    ensures r == "AM" || r == "PM"
    ensures r == "PM" <==> hour >= 12
  {
    if hour >= 12 then "PM" else "AM"
  }

  /** Line 31, strftime "%-m/%-d/%Y": month and day without padding, four-digit year. */
  function FormatDate(d: Date): (s: string)
    requires ValidDate(d)
  {
    ShowNat(d.month) + "/" + ShowNat(d.day) + "/" + ShowNat(d.year)
  }

  /** The Date text of a timestamp. */
  function DateText(t: Timestamp): (s: string)
    requires ValidTimestamp(t)
  {
    FormatDate(t.date)
  }

  /** Line 33, strftime ":%M:%S". */
  function MinuteSecond(t: Timestamp): (s: string)
    requires ValidTimestamp(t)
    ensures |s| == 6 && s[0] == ':' && s[3] == ':'
  {
    ":" + Pad2(t.minute) + ":" + Pad2(t.second)
  }

  /** Line 37: the 12-hour hour written without padding, then ":MM:SS". */
  function ActivityHourText(t: Timestamp): (s: string)
    requires ValidTimestamp(t)
  {
    ShowNat(To12Hour(t.hour)) + MinuteSecond(t)
  }

  /** The 24 to 12 direction inverts the 12 to 24 direction: DivideTheDay's rule
      applied to what match_weather_df writes gives back the hour. */
  lemma To12HourRoundTrip(hour: int)
    requires 0 <= hour < 24
    ensures To24Hour(To12Hour(hour), TimeOfDayOf(hour)) == hour
  {
  }

  /** ... and the other way round on every 12-hour input, so the two rules are
      inverse bijections between 0..23 and 1..12 x {AM, PM}. */
  lemma To24HourRoundTrip(hour: int, timeOfDay: string)
    requires 1 <= hour <= 12 && (timeOfDay == "AM" || timeOfDay == "PM")
    ensures To12Hour(To24Hour(hour, timeOfDay)) == hour
    ensures TimeOfDayOf(To24Hour(hour, timeOfDay)) == timeOfDay
  {
  }

  /** Reading the hour back from the ActivityHour text (divide_the_day.py line 23)
      yields the 12-hour hour that was written. */
  lemma ActivityHourParses(t: Timestamp)
    requires ValidTimestamp(t)
    ensures ParseHour(ActivityHourText(t)) == Some(To12Hour(t.hour))
    ensures To24Hour(ParseHour(ActivityHourText(t)).value, TimeOfDayOf(t.hour)) == t.hour
  {
    var h := ShowNat(To12Hour(t.hour));
    var rest := Pad2(t.minute) + ":" + Pad2(t.second);
    assert ActivityHourText(t) == h + [':'] + rest;
    ParseHourReadsFirstField(h, rest);
    ParseShowNat(To12Hour(t.hour));
    To12HourRoundTrip(t.hour);
  }

  /** The text and flag also parse under "%I:%M:%S %p" to the time of day of
      the timestamp. */
  lemma ActivityHourIsClockTime(t: Timestamp)
    requires ValidTimestamp(t)
    ensures ParseClock(ActivityHourText(t), TimeOfDayOf(t.hour))
         == Some(t.hour * 3600 + t.minute * 60 + t.second)
  {
    var h12 := To12Hour(t.hour);
    var a, b, c := ShowNat(h12), Pad2(t.minute), Pad2(t.second);
    assert ActivityHourText(t) == a + [':'] + b + [':'] + c;
    ShowNatLength(h12);
    ParseShowNat(h12);
    assert Field(a, 1, 12) == Some(h12);
    ParseClockFields(a, b, c, TimeOfDayOf(t.hour), h12, t.minute, t.second, t.hour >= 12);
    assert StrptimeHour(h12, t.hour >= 12) == t.hour;
  }

  /** The unpadded date reads back under "%m/%d/%Y" as the same date. */
  lemma FormatDateRoundTrip(d: Date)
    requires ValidDate(d) && 1000 <= d.year
    ensures ParseDate(FormatDate(d)) == Some(d)
  {
    var a, b, c := ShowNat(d.month), ShowNat(d.day), ShowNat(d.year);
    assert FormatDate(d) == Join([a, b, c], '/') by {
      JoinThree(a, b, c, '/');
    }
    SplitJoin([a, b, c], '/');
    ShowNatLength(d.month);
    ShowNatLength(d.day);
    ShowNatLength(d.year);
    ParseShowNat(d.month);
    ParseShowNat(d.day);
    ParseShowNat(d.year);
    assert Field(a, 1, 12) == Some(d.month);
    assert Field(b, 1, 31) == Some(d.day);
  }

  // ---------------------------------------------------------------------------
  // match_weather_df on the weather frame, in place

  /** The weather frame. `stamps` is the ActivityHour column while it holds
      datetimes and `activityHour` the same column once it holds text (exactly
      one of the two is present); `hour`, `minuteSecond` and `hour12` are the
      helper columns Hour, MinuteSecond and ActivityHour_12. Of the weather
      measures only temp and precip, the ones the analyses use, are kept. */
  class WeatherFrame {
    var stamps: Option<seq<Timestamp>>
    var activityHour: Option<seq<string>>
    var date: Option<seq<string>>
    var hour: Option<seq<int>>
    var minuteSecond: Option<seq<string>>
    var hour12: Option<seq<int>>
    var timeOfDay: Option<seq<string>>
    var temp: seq<real>
    var precip: seq<real>

    ghost predicate Valid()
      reads this
    {
      && |precip| == |temp|
      && (stamps.Some? <==> activityHour.None?)
      && (stamps.Some? ==>
            |stamps.value| == |temp| && forall i :: 0 <= i < |temp| ==> ValidTimestamp(stamps.value[i]))
      && (activityHour.Some? ==> |activityHour.value| == |temp|)
      && (date.Some? ==> |date.value| == |temp|)
      && (hour.Some? ==> |hour.value| == |temp|)
      && (minuteSecond.Some? ==> |minuteSecond.value| == |temp|)
      && (hour12.Some? ==> |hour12.value| == |temp|)
      && (timeOfDay.Some? ==> |timeOfDay.value| == |temp|)
    }

    /** The frame load_weather_data returns: datetimes, temp and precip. */
    constructor (stamps: seq<Timestamp>, temp: seq<real>, precip: seq<real>)
      requires |stamps| == |temp| && |precip| == |temp|
      requires forall i :: 0 <= i < |stamps| ==> ValidTimestamp(stamps[i])
      ensures Valid()
      ensures this.stamps == Some(stamps) && activityHour == None
      ensures this.temp == temp && this.precip == precip
      ensures date == None && hour == None && minuteSecond == None && hour12 == None && timeOfDay == None
    {
      this.stamps := Some(stamps);
      activityHour := None;
      date, hour, minuteSecond, hour12, timeOfDay := None, None, None, None, None;
      this.temp := temp;
      this.precip := precip;
    }
  }

  /** The columns match_weather_df leaves, for datetimes ts: ActivityHour as
      text, Date and TimeOfDay. */
  function ActivityHourColumn(ts: seq<Timestamp>): (r: seq<string>)
    requires forall i :: 0 <= i < |ts| ==> ValidTimestamp(ts[i])
    ensures |r| == |ts|
  {
    seq(|ts|, i requires 0 <= i < |ts| => ActivityHourText(ts[i]))
  }

  function DateColumn(ts: seq<Timestamp>): (r: seq<string>)
    requires forall i :: 0 <= i < |ts| ==> ValidTimestamp(ts[i])
    ensures |r| == |ts|
  {
    seq(|ts|, i requires 0 <= i < |ts| => DateText(ts[i]))
  }

  function TimeOfDayColumn(ts: seq<Timestamp>): (r: seq<string>)
    ensures |r| == |ts|
  {
    seq(|ts|, i requires 0 <= i < |ts| => TimeOfDayOf(ts[i].hour))
  }

  /** The columns match_weather_df leaves read back to the datetimes they came
      from: ActivityHour with TimeOfDay parses under "%I:%M:%S %p" to the
      original time of day, and Date parses under "%m/%d/%Y" to the original
      date. */
  lemma MatchedColumnsReadBack(ts: seq<Timestamp>)
    requires forall i :: 0 <= i < |ts| ==> ValidTimestamp(ts[i])
    ensures forall i :: 0 <= i < |ts| ==>
      ParseClock(ActivityHourColumn(ts)[i], TimeOfDayColumn(ts)[i]) == Some(ts[i].hour * 3600 + ts[i].minute * 60 + ts[i].second)
    ensures forall i :: 0 <= i < |ts| ==> ParseDate(DateColumn(ts)[i]) == Some(ts[i].date)
  {
    forall i | 0 <= i < |ts| {
      MatchedRowReadsBack(ts, i);
    }
  }

  lemma MatchedRowReadsBack(ts: seq<Timestamp>, i: nat)
    requires forall i :: 0 <= i < |ts| ==> ValidTimestamp(ts[i])
    requires i < |ts|
    ensures ParseClock(ActivityHourColumn(ts)[i], TimeOfDayColumn(ts)[i]) == Some(ts[i].hour * 3600 + ts[i].minute * 60 + ts[i].second)
    ensures ParseDate(DateColumn(ts)[i]) == Some(ts[i].date)
  {
    var t := ts[i];
    assert ActivityHourColumn(ts)[i] == ActivityHourText(t);
    assert TimeOfDayColumn(ts)[i] == TimeOfDayOf(t.hour);
    assert DateColumn(ts)[i] == FormatDate(t.date);
    ActivityHourIsClockTime(t);
    FormatDateRoundTrip(t.date);
  }

  /** match_weather_df, lines 30-40, column by column, on the frame
      load_weather_data returns, whose ActivityHour holds datetimes:
      ActivityHour becomes the 12-hour text, Date and TimeOfDay are added, the
      helper columns are gone again and the measures are untouched. */
  method MatchWeatherDf(df: WeatherFrame)
    requires df.Valid() && df.stamps.Some?
    modifies df
    ensures df.Valid()
    ensures df.stamps.None? && df.hour.None? && df.minuteSecond.None? && df.hour12.None?
    ensures df.activityHour == Some(ActivityHourColumn(old(df.stamps).value))
    ensures df.date == Some(DateColumn(old(df.stamps).value))
    ensures df.timeOfDay == Some(TimeOfDayColumn(old(df.stamps).value))
    ensures df.temp == old(df.temp) && df.precip == old(df.precip)
  {
    var ts := df.stamps.value;
    var date, h, ms, h12, text, tod := MatchedColumns(ts);
    df.date := Some(date);
    df.hour := Some(h);
    df.minuteSecond := Some(ms);
    df.hour12 := Some(h12);
    df.activityHour := Some(text);
    df.stamps := None;
    df.timeOfDay := Some(tod);
    df.hour, df.minuteSecond, df.hour12 := None, None, None;
  }

  /** The columns of lines 31-39, computed step by step as the script does:
      Date, Hour, MinuteSecond, ActivityHour_12 (a copy of Hour, then 12 for
      midnight, then Hour - 12 past noon), the ActivityHour text, and
      TimeOfDay (AM, then PM from noon on). */
  method MatchedColumns(ts: seq<Timestamp>)
    returns (date: seq<string>, h: seq<int>, ms: seq<string>, h12: seq<int>, text: seq<string>, tod: seq<string>)
    requires forall i :: 0 <= i < |ts| ==> ValidTimestamp(ts[i])
    ensures |h| == |ts| && |ms| == |ts| && |h12| == |ts|
    ensures forall i :: 0 <= i < |ts| ==> h[i] == ts[i].hour && 1 <= h12[i] <= 12
    ensures date == DateColumn(ts) && text == ActivityHourColumn(ts) && tod == TimeOfDayColumn(ts)
  {
    var n := |ts|;
    date := DateColumn(ts);
    h := seq(n, i requires 0 <= i < n => ts[i].hour);
    ms := seq(n, i requires 0 <= i < n => MinuteSecond(ts[i]));
    h12 := h;
    h12 := seq(n, i requires 0 <= i < n => if h[i] == 0 then 12 else h12[i]);
    h12 := seq(n, i requires 0 <= i < n => if h[i] > 12 then h[i] - 12 else h12[i]);
    assert forall i :: 0 <= i < n ==> h12[i] == To12Hour(ts[i].hour) >= 1;
    text := seq(n, i requires 0 <= i < n => ShowNat(h12[i]) + ms[i]);
    assert text == ActivityHourColumn(ts);
    tod := seq(n, i requires 0 <= i < n => "AM");
    tod := seq(n, i requires 0 <= i < n => if h[i] >= 12 then "PM" else tod[i]);
    assert tod == TimeOfDayColumn(ts);
  }

  // ---------------------------------------------------------------------------
  // The joins

  /** One row of the weather frame after match_weather_df. */
  datatype WeatherHour = WeatherHour(activityHour: string, date: string, timeOfDay: string, temp: real, precip: real)

  /** The matched weather rows for weather recorded at stamps. */
  function MatchWeather(stamps: seq<Timestamp>, temp: seq<real>, precip: seq<real>): (rows: seq<WeatherHour>)
    requires |temp| == |stamps| && |precip| == |stamps|
    requires forall i :: 0 <= i < |stamps| ==> ValidTimestamp(stamps[i])
    ensures |rows| == |stamps|
    ensures forall i :: 0 <= i < |stamps| ==>
      rows[i] == WeatherHour(ActivityHourColumn(stamps)[i], DateColumn(stamps)[i], TimeOfDayColumn(stamps)[i], temp[i], precip[i])
  {
    seq(|stamps|, i requires 0 <= i < |stamps| =>
      WeatherHour(ActivityHourText(stamps[i]), FormatDate(stamps[i].date), TimeOfDayOf(stamps[i].hour), temp[i], precip[i]))
  }

  /** Each matched weather row reads back to its timestamp: ActivityHour with
      TimeOfDay gives the time of day, and Date gives the date. */
  lemma MatchWeatherReadsBack(stamps: seq<Timestamp>, temp: seq<real>, precip: seq<real>)
    requires |temp| == |stamps| && |precip| == |stamps|
    requires forall i :: 0 <= i < |stamps| ==> ValidTimestamp(stamps[i])
    ensures var rows := MatchWeather(stamps, temp, precip);
      forall i :: 0 <= i < |stamps| ==>
        && ParseClock(rows[i].activityHour, rows[i].timeOfDay) == Some(stamps[i].hour * 3600 + stamps[i].minute * 60 + stamps[i].second)
        && ParseDate(rows[i].date) == Some(stamps[i].date)
  {
    MatchedColumnsReadBack(stamps);
  }

  datatype HourlyCalories = HourlyCalories(id: int, activityHour: string, date: string, timeOfDay: string, calories: real)
  datatype HourlySteps = HourlySteps(id: int, activityHour: string, date: string, timeOfDay: string, stepTotal: int)

  /** A row of the joined Fitbit frame: the join keys, then Calories, then StepTotal. */
  datatype FitbitHour = FitbitHour(id: int, activityHour: string, date: string, timeOfDay: string, calories: real, stepTotal: int)

  function CaloriesKey(c: HourlyCalories): (int, string, string, string) { (c.id, c.activityHour, c.date, c.timeOfDay) }
  function StepsKey(s: HourlySteps): (int, string, string, string) { (s.id, s.activityHour, s.date, s.timeOfDay) }
  function JoinHour(c: HourlyCalories, s: HourlySteps): FitbitHour { FitbitHour(c.id, c.activityHour, c.date, c.timeOfDay, c.calories, s.stepTotal) }

  /** merge_fitbit_data, line 19: the inner join of calories (left) and steps on
      Id, ActivityHour, Date and TimeOfDay. */
  function MergeFitbitData(steps: seq<HourlySteps>, calories: seq<HourlyCalories>): (r: seq<FitbitHour>)
    ensures |r| == PairCount(calories, steps, CaloriesKey, StepsKey)
    ensures forall o :: o in r <==>
      exists i, j :: 0 <= i < |calories| && 0 <= j < |steps|
        && calories[i].id == steps[j].id && calories[i].activityHour == steps[j].activityHour
        && calories[i].date == steps[j].date && calories[i].timeOfDay == steps[j].timeOfDay
        && o == FitbitHour(calories[i].id, calories[i].activityHour, calories[i].date, calories[i].timeOfDay,
                           calories[i].calories, steps[j].stepTotal)
  {
    InnerJoin(calories, steps, CaloriesKey, StepsKey, JoinHour)
  }

  /** A row of the Fitbit frame with the weather of its hour. */
  datatype FitbitWeatherHour = FitbitWeatherHour(fitbit: FitbitHour, temp: real, precip: real)

  function FitbitKey(f: FitbitHour): (string, string, string) { (f.activityHour, f.date, f.timeOfDay) }
  function WeatherKey(w: WeatherHour): (string, string, string) { (w.activityHour, w.date, w.timeOfDay) }
  function WithWeather(f: FitbitHour, w: WeatherHour): FitbitWeatherHour { FitbitWeatherHour(f, w.temp, w.precip) }

  /** merge_fitbit_and_weather_data, line 44: the inner join on ActivityHour,
      Date and TimeOfDay only, so every user's row of an hour gets that hour's
      weather. */
  function MergeFitbitAndWeatherData(fitbit: seq<FitbitHour>, weather: seq<WeatherHour>): (r: seq<FitbitWeatherHour>)
    ensures |r| == PairCount(fitbit, weather, FitbitKey, WeatherKey)
    ensures forall o :: o in r <==>
      exists i, j :: 0 <= i < |fitbit| && 0 <= j < |weather|
        && fitbit[i].activityHour == weather[j].activityHour && fitbit[i].date == weather[j].date
        && fitbit[i].timeOfDay == weather[j].timeOfDay
        && o == FitbitWeatherHour(fitbit[i], weather[j].temp, weather[j].precip)
  {
    InnerJoin(fitbit, weather, FitbitKey, WeatherKey, WithWeather)
  }

  // ---------------------------------------------------------------------------
  // main(), line 119: the DivideTheDay columns on the merged frame

  /** A merged row with the Hour and TimeBlock columns added. */
  datatype AnalysisRow = AnalysisRow(row: FitbitWeatherHour, hour: int, timeBlock: Option<string>)

  /** convert_time_to_twentyfour_hours then assign_time_blocks on the merged
      frame, with ActivityHour as the time column; None where some ActivityHour
      has no integer before its ':'. */
  function AnalysisRows(merged: seq<FitbitWeatherHour>): (r: Option<seq<AnalysisRow>>)
    ensures r.Some? <==> forall i :: 0 <= i < |merged| ==> ParseHour(merged[i].fitbit.activityHour).Some?
    ensures r.Some? ==> |r.value| == |merged| && forall i :: 0 <= i < |merged| ==> r.value[i].row == merged[i]
  {
    var time := seq(|merged|, i requires 0 <= i < |merged| => merged[i].fitbit.activityHour);
    var timeOfDay := seq(|merged|, i requires 0 <= i < |merged| => merged[i].fitbit.timeOfDay);
    assert forall i :: 0 <= i < |merged| ==> time[i] == merged[i].fitbit.activityHour;
    match HourColumn(time, timeOfDay)
    case None => None
    case Some(hours) =>
      var blocks := BlockColumn(hours);
      Some(seq(|merged|, i requires 0 <= i < |merged| => AnalysisRow(merged[i], hours[i], blocks[i])))
  }

  /** Composed as in main(), the two clock conversions cancel: every row of the
      merged frame gets back the 24-hour hour of the weather timestamp it was
      joined with, and that hour's block, so no row is left without a block. */
  lemma PipelineRecoversWeatherHour(fitbit: seq<FitbitHour>, stamps: seq<Timestamp>, temp: seq<real>, precip: seq<real>)
    requires |temp| == |stamps| && |precip| == |stamps|
    requires forall i :: 0 <= i < |stamps| ==> ValidTimestamp(stamps[i])
    ensures var merged := MergeFitbitAndWeatherData(fitbit, MatchWeather(stamps, temp, precip));
      var r := AnalysisRows(merged);
      && r.Some?
      && forall k :: 0 <= k < |merged| ==>
           (exists j :: 0 <= j < |stamps| && r.value[k].hour == stamps[j].hour)
           && r.value[k].timeBlock == Some(TimeLabels[r.value[k].hour / 4])
  {
    var weather := MatchWeather(stamps, temp, precip);
    var merged := MergeFitbitAndWeatherData(fitbit, weather);
    var time := seq(|merged|, i requires 0 <= i < |merged| => merged[i].fitbit.activityHour);
    var timeOfDay := seq(|merged|, i requires 0 <= i < |merged| => merged[i].fitbit.timeOfDay);
    forall k | 0 <= k < |merged|
      ensures ParseHour(time[k]).Some?
      ensures exists j :: 0 <= j < |stamps| && To24Hour(ParseHour(time[k]).value, timeOfDay[k]) == stamps[j].hour
    {
      assert merged[k] in merged;
      var i, j :| 0 <= i < |fitbit| && 0 <= j < |weather|
        && fitbit[i].activityHour == weather[j].activityHour && fitbit[i].timeOfDay == weather[j].timeOfDay
        && merged[k].fitbit == fitbit[i];
      ActivityHourParses(stamps[j]);
    }
    var hours := HourColumn(time, timeOfDay).value;
    forall k | 0 <= k < |merged|
      ensures (exists j :: 0 <= j < |stamps| && AnalysisRows(merged).value[k].hour == stamps[j].hour)
      ensures AnalysisRows(merged).value[k].timeBlock == Some(TimeLabels[AnalysisRows(merged).value[k].hour / 4])
    {
      var j :| 0 <= j < |stamps| && hours[k] == stamps[j].hour;
      TimeBlockOfHour(hours[k]);
    }
  }

  // ---------------------------------------------------------------------------
  // Selecting time blocks

  /** Series.isin(selected) on a TimeBlock: a NaN block is never selected. */
  predicate InSelection(block: Option<string>, selected: seq<string>)
  {
    block.Some? && block.value in selected
  }

  /** The block filter and empty check of run_regression, lines 47-51: with
      blocks given only rows of those blocks remain; None (no data, no model)
      when no row remains. */
  function RegressionRows(rows: seq<AnalysisRow>, selected: Option<seq<string>>): (r: Option<seq<AnalysisRow>>)
    ensures r.Some? ==> r.value != []
    ensures r.Some? ==> forall x :: x in r.value <==>
      x in rows && (selected.Some? ==> InSelection(x.timeBlock, selected.value))
    ensures r.None? <==> forall x :: x in rows ==> selected.Some? && !InSelection(x.timeBlock, selected.value)
    ensures r.Some? ==>
      forall x :: multiset(r.value)[x] == if selected.Some? && !InSelection(x.timeBlock, selected.value) then 0 else multiset(rows)[x]
    ensures selected.None? && rows != [] ==> r == Some(rows)
  {
    if selected.Some? then
      var keep := (x: AnalysisRow) => InSelection(x.timeBlock, selected.value);
      FilterMultiplicity(rows, keep);
      var kept := Filter(rows, keep);
      if kept == [] then None else Some(kept)
    else if rows == [] then None else Some(rows)
  }

  /** The blocks plot_general_weather_analysis uses when none are given (line 62). */
  const DaytimeBlocks: seq<string> := ["8-12", "12-16", "16-20"]

  /** Lines 61-63: the selected blocks, defaulting to the daytime ones, and the
      rows in them. */
  function GeneralPlotRows(rows: seq<AnalysisRow>, selected: Option<seq<string>>): (r: seq<AnalysisRow>)
    ensures selected.None? ==> forall x :: x in r <==> x in rows && InSelection(x.timeBlock, DaytimeBlocks)
    ensures selected.Some? ==> forall x :: x in r <==> x in rows && InSelection(x.timeBlock, selected.value)
    ensures forall x ::
      multiset(r)[x] == if InSelection(x.timeBlock, if selected.None? then DaytimeBlocks else selected.value) then multiset(rows)[x] else 0
  {
    var blocks := if selected.None? then DaytimeBlocks else selected.value;
    FilterMultiplicity(rows, (x: AnalysisRow) => InSelection(x.timeBlock, blocks));
    Filter(rows, (x: AnalysisRow) => InSelection(x.timeBlock, blocks))
  }

  /** The default blocks are exactly the hours from 8:00 up to 20:00. */
  lemma DefaultBlocksAreDaytime(hour: int)
    ensures InSelection(TimeBlockOf(hour), DaytimeBlocks) <==> 8 <= hour < 20
  {
    TimeBlockOfHour(hour);
    if 0 <= hour < 24 {
      var k := hour / 4;
      assert TimeLabels[k] in DaytimeBlocks <==> 2 <= k <= 4;
    }
  }
}
