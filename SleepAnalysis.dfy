/** scripts/sleep_analysis_2.py: minutes asleep per sleep log and per user-day
    (SQL group-by counts over minute_sleep), the daily activity table with its
    TotalActiveMinutes column, and the join of the two that the regressions
    read. The regressions and plots are not modelled. */
module SleepAnalysis {
  import opened Frames
  import opened Clock

  /** A row of minute_sleep: the user, the day, the sleep state of the minute
      (1 is asleep) and the sleep log it belongs to. */
  datatype MinuteSleepRow = MinuteSleepRow(id: int, date: string, value: int, logId: int)

  // ---------------------------------------------------------------------------
  // get_asleep_minutes_by_logid

  /** The minutes whose state is asleep (value = 1). */
  function Asleep(x: MinuteSleepRow): bool { x.value == 1 }

  function RowLogId(x: MinuteSleepRow): int { x.logId }
  function RowDay(x: MinuteSleepRow): (int, string) { (x.id, x.date) }

  /** The asleep minutes of one log. */
  function AsleepInLog(logId: int): MinuteSleepRow -> bool
  {
    (x: MinuteSleepRow) => x.value == 1 && x.logId == logId
  }

  /** One row of the query result: a log and its number of asleep minutes. */
  datatype LogMinutes = LogMinutes(logId: int, asleepMinutes: nat)

  /** The log ids of the asleep minutes, in row order. */
  function AsleepLogIds(rows: seq<MinuteSleepRow>): (r: seq<int>)
    ensures forall k :: k in r <==> exists i :: 0 <= i < |rows| && rows[i].value == 1 && rows[i].logId == k
  {
    SelectWhere(rows, Asleep, RowLogId)
  }

  /** Every row carries the asleep-minute count of its own log. */
  ghost predicate CountsOfLogs(r: seq<LogMinutes>, rows: seq<MinuteSleepRow>)
  {
    forall x :: x in r ==> x.asleepMinutes == Count(rows, AsleepInLog(x.logId))
  }

  function MinutesLog(x: LogMinutes): int { x.logId }
  function LogIdsOf(r: seq<LogMinutes>): seq<int> { MapSeq(r, MinutesLog) }

  /** get_asleep_minutes_by_logid, lines 15-21: one row per log that has an
      asleep minute, with its count of asleep minutes (so at least 1), in
      descending order of that count. */
  function AsleepMinutesByLogId(rows: seq<MinuteSleepRow>): (r: seq<LogMinutes>)
    ensures forall k :: k in LogIdsOf(r) <==> k in AsleepLogIds(rows)
    ensures CountsOfLogs(r, rows)
    ensures forall x :: x in r ==> x.asleepMinutes >= 1
    ensures forall i, j :: 0 <= i < j < |r| ==> r[i].logId != r[j].logId
    ensures forall i, j :: 0 <= i < j < |r| ==> r[i].asleepMinutes >= r[j].asleepMinutes
  {
    var keys := GroupKeys(AsleepLogIds(rows));
    var grouped := seq(|keys|, i requires 0 <= i < |keys| => LogMinutes(keys[i], Count(rows, AsleepInLog(keys[i]))));
    GroupedLogFacts(rows, keys, grouped);
    var r := SortBy(grouped, (x: LogMinutes) => -(x.asleepMinutes as int));
    PermutedLogFacts(rows, grouped, r);
    r
  }

  lemma GroupedLogFacts(rows: seq<MinuteSleepRow>, keys: seq<int>, grouped: seq<LogMinutes>)
    requires forall i, j :: 0 <= i < j < |keys| ==> keys[i] < keys[j]
    requires forall k :: k in keys <==> k in AsleepLogIds(rows)
    requires grouped == seq(|keys|, i requires 0 <= i < |keys| => LogMinutes(keys[i], Count(rows, AsleepInLog(keys[i]))))
    ensures LogIdsOf(grouped) == keys
    ensures CountsOfLogs(grouped, rows)
    ensures forall x :: x in grouped ==> x.asleepMinutes >= 1
    ensures forall i, j :: 0 <= i < j < |grouped| ==> grouped[i].logId != grouped[j].logId
  {
    forall x | x in grouped ensures x.asleepMinutes >= 1 {
      var i :| 0 <= i < |grouped| && grouped[i] == x;
      assert keys[i] in AsleepLogIds(rows);
      var j :| 0 <= j < |rows| && rows[j].value == 1 && rows[j].logId == keys[i];
      assert AsleepInLog(keys[i])(rows[j]);
    }
  }

  lemma PermutedLogFacts(rows: seq<MinuteSleepRow>, grouped: seq<LogMinutes>, r: seq<LogMinutes>)
    requires multiset(r) == multiset(grouped)
    requires CountsOfLogs(grouped, rows)
    requires forall x :: x in grouped ==> x.asleepMinutes >= 1
    requires forall i, j :: 0 <= i < j < |grouped| ==> grouped[i].logId != grouped[j].logId
    ensures forall k :: k in LogIdsOf(r) <==> k in LogIdsOf(grouped)
    ensures CountsOfLogs(r, rows)
    ensures forall x :: x in r ==> x.asleepMinutes >= 1
    ensures forall i, j :: 0 <= i < j < |r| ==> r[i].logId != r[j].logId
  {
    SameMembers(r, grouped);
    forall k ensures k in LogIdsOf(r) <==> k in LogIdsOf(grouped) {
      if k in LogIdsOf(grouped) {
        var i :| 0 <= i < |grouped| && LogIdsOf(grouped)[i] == k;
        assert grouped[i] in r;
        var j :| 0 <= j < |r| && r[j] == grouped[i];
        assert LogIdsOf(r)[j] == k;
      }
      if k in LogIdsOf(r) {
        var j :| 0 <= j < |r| && LogIdsOf(r)[j] == k;
        assert r[j] in grouped;
        var i :| 0 <= i < |grouped| && grouped[i] == r[j];
        assert LogIdsOf(grouped)[i] == k;
      }
    }
    DistinctElementsNoDups(grouped);
    assert NoDups(r);
    forall i, j | 0 <= i < j < |r| ensures r[i].logId != r[j].logId {
      NoDupsIndex(r, i, j);
    }
  }

  // ---------------------------------------------------------------------------
  // get_sleep_minutes_per_day

  /** The asleep minutes of one user-day. */
  function AsleepOnDay(id: int, date: string): MinuteSleepRow -> bool
  {
    (x: MinuteSleepRow) => x.value == 1 && x.id == id && x.date == date
  }

  /** One row of the query result: a user-day and its asleep minutes. */
  datatype DayMinutes = DayMinutes(id: int, date: string, asleepMinutes: nat)

  /** The (Id, Date) of the asleep minutes, in row order. */
  function AsleepDays(rows: seq<MinuteSleepRow>): (r: seq<(int, string)>)
    ensures forall d :: d in r <==> exists i :: 0 <= i < |rows| && rows[i].value == 1 && (rows[i].id, rows[i].date) == d
  {
    SelectWhere(rows, Asleep, RowDay)
  }

  function DayKey(x: DayMinutes): (int, string) { (x.id, x.date) }
  function DayKeys(r: seq<DayMinutes>): seq<(int, string)> { MapSeq(r, DayKey) }

  /** get_sleep_minutes_per_day, lines 25-30: one row per (Id, Date) with an
      asleep minute, with its count of asleep minutes, so at least 1. */
  function SleepMinutesPerDay(rows: seq<MinuteSleepRow>): (r: seq<DayMinutes>)
    ensures forall d :: d in DayKeys(r) <==> d in AsleepDays(rows)
    ensures forall x :: x in r ==> x.asleepMinutes == Count(rows, AsleepOnDay(x.id, x.date)) && x.asleepMinutes >= 1
    ensures forall i, j :: 0 <= i < j < |r| ==> (r[i].id, r[i].date) != (r[j].id, r[j].date)
  {
    var keys := Distinct(AsleepDays(rows));
    var r := seq(|keys|, i requires 0 <= i < |keys| => DayMinutes(keys[i].0, keys[i].1, Count(rows, AsleepOnDay(keys[i].0, keys[i].1))));
    assert DayKeys(r) == keys;
    DayMinutesFacts(rows, keys, r);
    r
  }

  lemma DayMinutesFacts(rows: seq<MinuteSleepRow>, keys: seq<(int, string)>, r: seq<DayMinutes>)
    requires NoDups(keys) && forall d :: d in keys <==> d in AsleepDays(rows)
    requires r == seq(|keys|, i requires 0 <= i < |keys| => DayMinutes(keys[i].0, keys[i].1, Count(rows, AsleepOnDay(keys[i].0, keys[i].1))))
    ensures forall x :: x in r ==> x.asleepMinutes >= 1
    ensures forall i, j :: 0 <= i < j < |r| ==> (r[i].id, r[i].date) != (r[j].id, r[j].date)
  {
    forall x | x in r ensures x.asleepMinutes >= 1 {
      var k :| 0 <= k < |r| && r[k] == x;
      assert keys[k] in AsleepDays(rows);
      var j :| 0 <= j < |rows| && rows[j].value == 1 && (rows[j].id, rows[j].date) == keys[k];
      assert AsleepOnDay(keys[k].0, keys[k].1)(rows[j]);
    }
    forall i, j | 0 <= i < j < |r| ensures (r[i].id, r[i].date) != (r[j].id, r[j].date) {
      NoDupsIndex(keys, i, j);
    }
  }

  // ---------------------------------------------------------------------------
  // get_daily_activity_with_active_minutes

  /** The columns of daily_activity the analysis uses. */
  datatype DailyActivity = DailyActivity(id: int, activityDate: string, veryActiveMinutes: int,
                                         fairlyActiveMinutes: int, lightlyActiveMinutes: int, sedentaryMinutes: int)

  /** A daily_activity row with the TotalActiveMinutes column added. */
  datatype ActiveDay = ActiveDay(day: DailyActivity, totalActiveMinutes: int)

  /** get_daily_activity_with_active_minutes, lines 35-40: every row kept, in
      order, with TotalActiveMinutes the sum of its very, fairly and lightly
      active minutes. */
  function WithActiveMinutes(days: seq<DailyActivity>): (r: seq<ActiveDay>)
    ensures |r| == |days|
    ensures forall i :: 0 <= i < |days| ==> r[i].day == days[i]
    ensures forall i :: 0 <= i < |days| ==>
      r[i].totalActiveMinutes == days[i].veryActiveMinutes + days[i].fairlyActiveMinutes + days[i].lightlyActiveMinutes
  {
    seq(|days|, i requires 0 <= i < |days| =>
      ActiveDay(days[i], days[i].veryActiveMinutes + days[i].fairlyActiveMinutes + days[i].lightlyActiveMinutes))
  }

  /** The total is no smaller than any of its parts when no part is negative,
      and the sedentary minutes are not part of it. */
  lemma ActiveMinutesBound(days: seq<DailyActivity>, i: nat)
    requires i < |days|
    requires days[i].veryActiveMinutes >= 0 && days[i].fairlyActiveMinutes >= 0 && days[i].lightlyActiveMinutes >= 0
    ensures var t := WithActiveMinutes(days)[i].totalActiveMinutes;
      t >= days[i].veryActiveMinutes && t >= days[i].fairlyActiveMinutes && t >= days[i].lightlyActiveMinutes
    ensures forall s :: WithActiveMinutes(days[i := days[i].(sedentaryMinutes := s)])[i].totalActiveMinutes
                        == WithActiveMinutes(days)[i].totalActiveMinutes
  {
  }

  // ---------------------------------------------------------------------------
  // prepare_merged_data

  /** A sleep row with its Date parsed. */
  datatype SleepDay = SleepDay(row: DayMinutes, date: Date)

  /** An activity row with its ActivityDate parsed. */
  datatype ActivityOn = ActivityOn(row: ActiveDay, date: Date)

  /** The eight columns of the merged table, in order (lines 57-61). */
  datatype MergedDay = MergedDay(id: int, date: Date, asleepMinutes: nat, veryActiveMinutes: int,
                                 fairlyActiveMinutes: int, lightlyActiveMinutes: int,
                                 totalActiveMinutes: int, sedentaryMinutes: int)

  /** Line 45: Date parsed; None when some row does not parse. */
  function ParseSleepDates(sleep: seq<DayMinutes>): (r: Option<seq<SleepDay>>)
    ensures r.Some? <==> forall i :: 0 <= i < |sleep| ==> ParseDate(sleep[i].date).Some?
    ensures r.Some? ==> |r.value| == |sleep| && forall i :: 0 <= i < |sleep| ==>
      r.value[i] == SleepDay(sleep[i], ParseDate(sleep[i].date).value)
  {
    if forall i :: 0 <= i < |sleep| ==> ParseDate(sleep[i].date).Some? then
      Some(seq(|sleep|, i requires 0 <= i < |sleep| => SleepDay(sleep[i], ParseDate(sleep[i].date).value)))
    else None
  }

  /** Line 46: ActivityDate parsed; None when some row does not parse. */
  function ParseActivityDates(activity: seq<ActiveDay>): (r: Option<seq<ActivityOn>>)
    ensures r.Some? <==> forall i :: 0 <= i < |activity| ==> ParseDate(activity[i].day.activityDate).Some?
    ensures r.Some? ==> |r.value| == |activity| && forall i :: 0 <= i < |activity| ==>
      r.value[i] == ActivityOn(activity[i], ParseDate(activity[i].day.activityDate).value)
  {
    if forall i :: 0 <= i < |activity| ==> ParseDate(activity[i].day.activityDate).Some? then
      Some(seq(|activity|, i requires 0 <= i < |activity| =>
        ActivityOn(activity[i], ParseDate(activity[i].day.activityDate).value)))
    else None
  }

  /** The merged row of a sleep day and an activity day (lines 57-61). */
  function Combine(s: SleepDay, a: ActivityOn): MergedDay
  {
    MergedDay(s.row.id, s.date, s.row.asleepMinutes, a.row.day.veryActiveMinutes, a.row.day.fairlyActiveMinutes,
              a.row.day.lightlyActiveMinutes, a.row.totalActiveMinutes, a.row.day.sedentaryMinutes)
  }

  /** The join key of each side: Id and the parsed date. */
  function SleepKey(x: SleepDay): (int, Date) { (x.row.id, x.date) }
  function ActivityKey(y: ActivityOn): (int, Date) { (y.row.day.id, y.date) }

  /** prepare_merged_data, lines 45-61: the inner join of the sleep days and
      the activity days on Id and the parsed date, projected onto the eight
      columns; None where pd.to_datetime raises. */
  function PrepareMergedData(sleep: seq<DayMinutes>, activity: seq<ActiveDay>): (r: Option<seq<MergedDay>>)
    ensures r.Some? <==> ParseSleepDates(sleep).Some? && ParseActivityDates(activity).Some?
    ensures r.Some? ==> |r.value| == PairCount(ParseSleepDates(sleep).value, ParseActivityDates(activity).value, SleepKey, ActivityKey)
    ensures r.Some? ==> forall m :: m in r.value <==>
      exists i, j :: 0 <= i < |sleep| && 0 <= j < |activity|
        && sleep[i].id == activity[j].day.id
        && ParseDate(sleep[i].date) == ParseDate(activity[j].day.activityDate)
        && m == MergedDay(sleep[i].id, ParseDate(sleep[i].date).value, sleep[i].asleepMinutes,
                          activity[j].day.veryActiveMinutes, activity[j].day.fairlyActiveMinutes,
                          activity[j].day.lightlyActiveMinutes, activity[j].totalActiveMinutes,
                          activity[j].day.sedentaryMinutes)
  {
    match (ParseSleepDates(sleep), ParseActivityDates(activity))
    case (Some(s), Some(a)) =>
      Some(InnerJoin(s, a, SleepKey, ActivityKey, Combine))
    case _ => None
  }

  /** Every merged row carries the user's sleep and the activity of that same
      day, with the total active minutes the sum of the three kinds. */
  lemma MergedRowsAreConsistent(sleepRows: seq<MinuteSleepRow>, days: seq<DailyActivity>)
    requires PrepareMergedData(SleepMinutesPerDay(sleepRows), WithActiveMinutes(days)).Some?
    ensures forall m :: m in PrepareMergedData(SleepMinutesPerDay(sleepRows), WithActiveMinutes(days)).value ==>
      && m.asleepMinutes >= 1
      && m.totalActiveMinutes == m.veryActiveMinutes + m.fairlyActiveMinutes + m.lightlyActiveMinutes
      && exists j :: 0 <= j < |days| && days[j].id == m.id && ParseDate(days[j].activityDate) == Some(m.date)
                     && days[j].sedentaryMinutes == m.sedentaryMinutes
  {
    var sleep := SleepMinutesPerDay(sleepRows);
    var activity := WithActiveMinutes(days);
    forall m | m in PrepareMergedData(sleep, activity).value
      ensures && m.asleepMinutes >= 1
              && m.totalActiveMinutes == m.veryActiveMinutes + m.fairlyActiveMinutes + m.lightlyActiveMinutes
              && exists j :: 0 <= j < |days| && days[j].id == m.id && ParseDate(days[j].activityDate) == Some(m.date)
                             && days[j].sedentaryMinutes == m.sedentaryMinutes
    {
      var i, j :| 0 <= i < |sleep| && 0 <= j < |activity|
        && sleep[i].id == activity[j].day.id
        && ParseDate(sleep[i].date) == ParseDate(activity[j].day.activityDate)
        && m == MergedDay(sleep[i].id, ParseDate(sleep[i].date).value, sleep[i].asleepMinutes,
                          activity[j].day.veryActiveMinutes, activity[j].day.fairlyActiveMinutes,
                          activity[j].day.lightlyActiveMinutes, activity[j].totalActiveMinutes,
                          activity[j].day.sedentaryMinutes);
      assert sleep[i] in sleep;
      assert activity[j].day == days[j];
    }
  }
}
