/** scripts/divide_the_day.py: hourly rows carry a 12-hour time string and an
    AM/PM flag; convert_time_to_twentyfour_hours adds an `Hour` column with the
    24-hour hour, assign_time_blocks adds a `TimeBlock` column with one of six
    4-hour labels, and compute_average_per_time_block averages a value column
    per block. */
module DivideTheDay {
  import opened Frames
  import opened Clock

  // ---------------------------------------------------------------------------
  // The hour of a 12-hour time string

  /** `str.split(':').str[0].astype(int)` on one time string: the integer written
      before the first ':'; None where astype(int) raises. */
  function ParseHour(time: string): Option<nat>
  {
    ParseNat(Split(time, ':')[0])
  }

  /** The parsed hour is the number before the first ':', whatever follows it. */
  lemma ParseHourReadsFirstField(field: string, rest: string)
    requires ':' !in field
    ensures ParseHour(field + [':'] + rest) == ParseNat(field)
  {
    SplitHead(field, ':', rest);
  }

  /** A time string without ':' is parsed whole. */
  lemma ParseHourWithoutColon(time: string)
    requires ':' !in time
    ensures ParseHour(time) == ParseNat(time)
  {
  }

  // ---------------------------------------------------------------------------
  // 12-hour to 24-hour

  /** Lines 24 and 25 applied to one row: first a PM hour other than 12 moves up
      by 12, then an AM hour equal to 12 (after the first step) becomes 0. A
      TimeOfDay other than "AM" or "PM" leaves the hour as parsed, and the hour
      is not range-checked. */
  function To24Hour(hour: int, timeOfDay: string): (r: int)
    ensures timeOfDay != "AM" && timeOfDay != "PM" ==> r == hour
    ensures 1 <= hour <= 12 && (timeOfDay == "AM" || timeOfDay == "PM") ==>
      0 <= r < 24 && (r >= 12 <==> timeOfDay == "PM")
  {
    var afterPm := if timeOfDay == "PM" && hour != 12 then hour + 12 else hour;
    if timeOfDay == "AM" && afterPm == 12 then 0 else afterPm
  }

  /** On the inputs strptime accepts, the rule agrees with strptime's own
      reading of "%I %p", which the plotting scripts use. */
  lemma To24HourAgreesWithStrptime(hour: nat, timeOfDay: string)
    requires 1 <= hour <= 12 && (timeOfDay == "AM" || timeOfDay == "PM")
    ensures Meridiem(timeOfDay).Some?
    ensures To24Hour(hour, timeOfDay) == StrptimeHour(hour, Meridiem(timeOfDay).value)
  {
  }

  // ---------------------------------------------------------------------------
  // Time blocks: pd.cut(Hour, bins=[0, 4, ..., 24], labels=..., right=False)

  const TimeLabels: seq<string> := ["0-4", "4-8", "8-12", "12-16", "16-20", "20-24"]
  const Bins: seq<int> := [0, 4, 8, 12, 16, 20, 24]

  /** pd.cut(x, bins, labels=labels, right=False) on one value: the label of the
      half-open bin [bins[i], bins[i+1]) that holds x, or None (NaN) when x lies
      outside every bin. pd.cut itself raises unless the bins increase and
      there is one label per bin, so callers must meet both. */
  function Cut(x: int, bins: seq<int>, labels: seq<string>): (r: Option<string>)
    requires |bins| == |labels| + 1
    requires forall i, j :: 0 <= i < j < |bins| ==> bins[i] < bins[j]
    ensures r.Some? <==> bins[0] <= x < bins[|bins| - 1]
    ensures forall i :: 0 <= i < |labels| && bins[i] <= x < bins[i + 1] ==> r == Some(labels[i])
    decreases |labels|
  {
    if |labels| == 0 then None
    else if bins[0] <= x < bins[1] then
      assert forall i :: 0 < i < |labels| ==> bins[1] <= bins[i];
      Some(labels[0])
    else
      var r := Cut(x, bins[1..], labels[1..]);
      assert forall i :: 0 < i < |labels| ==> bins[i] == bins[1..][i - 1] && bins[i + 1] == bins[1..][i] && labels[i] == labels[1..][i - 1];
      r
  }

  /** The TimeBlock label of one hour. */
  function TimeBlockOf(hour: int): Option<string>
  {
    Cut(hour, Bins, TimeLabels)
  }

  /** Hour h in 0..23 gets label number h / 4, the block [4k, 4k + 4) closed on
      the left; any other hour gets no block (NaN). */
  lemma TimeBlockOfHour(hour: int)
    ensures 0 <= hour < 24 ==> TimeBlockOf(hour) == Some(TimeLabels[hour / 4])
    ensures !(0 <= hour < 24) ==> TimeBlockOf(hour) == None
  {
    if 0 <= hour < 24 {
      var k := hour / 4;
      assert Bins[k] <= hour < Bins[k + 1];
    }
  }

  /** The six labels are different, so no hour falls in two blocks. */
  lemma TimeLabelsDistinct()
    ensures forall i, j :: 0 <= i < j < |TimeLabels| ==> TimeLabels[i] != TimeLabels[j]
  {
  }

  // ---------------------------------------------------------------------------
  // The frame the two functions update in place

  /** The frame main() builds for one measure: the time column handed in as
      `time_column`, TimeOfDay and the value column that is averaged later.
      `hour` and `timeBlock` are the Hour and TimeBlock columns, None until the
      function that adds them has run; a None inside `timeBlock` is NaN. */
  class HourlyFrame {
    var time: seq<string>
    var timeOfDay: seq<string>
    var values: seq<real>
    var hour: Option<seq<int>>
    var timeBlock: Option<seq<Option<string>>>

    ghost predicate Valid()
      reads this
    {
      && |timeOfDay| == |time|
      && |values| == |time|
      && (hour.Some? ==> |hour.value| == |time|)
      && (timeBlock.Some? ==> |timeBlock.value| == |time|)
    }

    constructor (time: seq<string>, timeOfDay: seq<string>, values: seq<real>)
      requires |timeOfDay| == |time| && |values| == |time|
      ensures Valid()
      ensures this.time == time && this.timeOfDay == timeOfDay && this.values == values
      ensures hour == None && timeBlock == None
    {
      this.time := time;
      this.timeOfDay := timeOfDay;
      this.values := values;
      hour := None;
      timeBlock := None;
    }
  }

  /** The Hour column, row by row: every time parses and each row's hour is
      To24Hour of its parsed hour and its TimeOfDay; None when some time does
      not parse (astype(int) raises ValueError). */
  function HourColumn(time: seq<string>, timeOfDay: seq<string>): (r: Option<seq<int>>)
    requires |timeOfDay| == |time|
    ensures r.Some? <==> forall i :: 0 <= i < |time| ==> ParseHour(time[i]).Some?
    ensures r.Some? ==> |r.value| == |time|
    ensures r.Some? ==> forall i :: 0 <= i < |time| ==> r.value[i] == To24Hour(ParseHour(time[i]).value, timeOfDay[i])
  {
    if forall i :: 0 <= i < |time| ==> ParseHour(time[i]).Some? then
      Some(seq(|time|, i requires 0 <= i < |time| => To24Hour(ParseHour(time[i]).value, timeOfDay[i])))
    else None
  }

  /** convert_time_to_twentyfour_hours, lines 23-25: three whole-column steps on
      the caller's frame. Only the Hour column changes; every other column and
      the row count stay as they were. */
  method ConvertTimeToTwentyFourHours(df: HourlyFrame) returns (ok: bool)
    requires df.Valid()
    modifies df
    ensures df.Valid()
    ensures ok <==> HourColumn(old(df.time), old(df.timeOfDay)).Some?
    ensures df.hour == (if ok then HourColumn(old(df.time), old(df.timeOfDay)) else old(df.hour))
    ensures df.time == old(df.time) && df.timeOfDay == old(df.timeOfDay)
    ensures df.values == old(df.values) && df.timeBlock == old(df.timeBlock)
  {
    var n := |df.time|;
    if exists i :: 0 <= i < n && ParseHour(df.time[i]).None? {
      return false;
    }
    var time, tod := df.time, df.timeOfDay;
    var parsed := seq(n, i requires 0 <= i < n => ParseHour(time[i]).value);
    var pmStep := seq(n, i requires 0 <= i < n =>
      if tod[i] == "PM" && parsed[i] != 12 then parsed[i] + 12 else parsed[i]);
    var amStep := seq(n, i requires 0 <= i < n =>
      if tod[i] == "AM" && pmStep[i] == 12 then 0 else pmStep[i]);
    df.hour := Some(amStep);
    ok := true;
    var column := HourColumn(time, tod);
    assert column.Some?;
    assert forall i :: 0 <= i < n ==> column.value[i] == To24Hour(ParseHour(time[i]).value, tod[i]) == amStep[i];
    assert column.value == amStep;
  }

  /** The TimeBlock column for an Hour column. */
  function BlockColumn(hours: seq<int>): (r: seq<Option<string>>)
    ensures |r| == |hours|
  {
    seq(|hours|, i requires 0 <= i < |hours| => TimeBlockOf(hours[i]))
  }

  /** Row by row, an hour in 0..23 gets label number hour / 4 and any other
      hour gets NaN; the column keeps the row count. */
  lemma BlockColumnRows(hours: seq<int>)
    ensures |BlockColumn(hours)| == |hours|
    ensures forall i :: 0 <= i < |hours| && 0 <= hours[i] < 24 ==> BlockColumn(hours)[i] == Some(TimeLabels[hours[i] / 4])
    ensures forall i :: 0 <= i < |hours| && !(0 <= hours[i] < 24) ==> BlockColumn(hours)[i] == None
  {
    forall i | 0 <= i < |hours| {
      TimeBlockOfHour(hours[i]);
    }
  }

  /** Every hour of a converted 12-hour time with AM/PM lands in a block. */
  lemma ConvertedHoursHaveBlocks(time: seq<string>, timeOfDay: seq<string>)
    requires |timeOfDay| == |time|
    requires HourColumn(time, timeOfDay).Some?
    requires forall i :: 0 <= i < |time| ==> 1 <= ParseHour(time[i]).value <= 12
    requires forall i :: 0 <= i < |time| ==> timeOfDay[i] == "AM" || timeOfDay[i] == "PM"
    ensures forall i :: 0 <= i < |time| ==>
      BlockColumn(HourColumn(time, timeOfDay).value)[i].Some?
  {
    var hours := HourColumn(time, timeOfDay).value;
    forall i | 0 <= i < |time| ensures BlockColumn(hours)[i].Some? {
      assert hours[i] == To24Hour(ParseHour(time[i]).value, timeOfDay[i]);
      TimeBlockOfHour(hours[i]);
    }
  }

  /** assign_time_blocks, line 32: adds the TimeBlock column computed from the
      Hour column. Without an Hour column pandas raises KeyError (ok false) and
      nothing changes. */
  method AssignTimeBlocks(df: HourlyFrame) returns (ok: bool)
    requires df.Valid()
    modifies df
    ensures df.Valid()
    ensures ok <==> old(df.hour).Some?
    ensures df.timeBlock == (if ok then Some(BlockColumn(old(df.hour).value)) else old(df.timeBlock))
    ensures df.time == old(df.time) && df.timeOfDay == old(df.timeOfDay)
    ensures df.values == old(df.values) && df.hour == old(df.hour)
  {
    if df.hour.None? {
      return false;
    }
    var hours := df.hour.value;
    df.timeBlock := Some(BlockColumn(hours));
    ok := true;
  }

  // ---------------------------------------------------------------------------
  // compute_average_per_time_block: groupby('TimeBlock', observed=False) mean

  /** One row of the result: a label and the mean of the value column over the
      rows of that block; None (NaN) for a block without rows. */
  datatype BlockAverage = BlockAverage(timeBlock: string, average: Option<real>)

  function Zip(blocks: seq<Option<string>>, values: seq<real>): (rows: seq<(Option<string>, real)>)
    requires |values| == |blocks|
    ensures |rows| == |blocks|
  {
    seq(|blocks|, i requires 0 <= i < |blocks| => (blocks[i], values[i]))
  }

  /** Number of rows whose TimeBlock is label. */
  function BlockSize(blocks: seq<Option<string>>, name: string): nat
  {
    Count(blocks, (b: Option<string>) => b == Some(name))
  }

  /** Sum of the value column over the rows whose TimeBlock is label. */
  function BlockSum(blocks: seq<Option<string>>, values: seq<real>, name: string): real
    requires |values| == |blocks|
  {
    SumFor(Zip(blocks, values), (r: (Option<string>, real)) => r.0, (r: (Option<string>, real)) => r.1, Some(name))
  }

  /** One row per label, in label order, empty blocks included (observed=False);
      each average times its block's size is the block's sum, and the average
      is NaN exactly when the block has no rows. Rows whose TimeBlock is NaN
      belong to no group. */
  function AveragePerTimeBlock(blocks: seq<Option<string>>, values: seq<real>): (r: seq<BlockAverage>)
    requires |values| == |blocks|
    ensures |r| == |TimeLabels|
    ensures forall k :: 0 <= k < |r| ==>
      && r[k].timeBlock == TimeLabels[k]
      && (r[k].average.None? <==> BlockSize(blocks, TimeLabels[k]) == 0)
      && (r[k].average.Some? ==>
            r[k].average.value * BlockSize(blocks, TimeLabels[k]) as real == BlockSum(blocks, values, TimeLabels[k]))
  {
    seq(|TimeLabels|, k requires 0 <= k < |TimeLabels| =>
      var n := BlockSize(blocks, TimeLabels[k]);
      BlockAverage(TimeLabels[k], if n == 0 then None else Some(BlockSum(blocks, values, TimeLabels[k]) / n as real)))
  }

  /** The keys of the six groups. */
  const BlockKeys: seq<Option<string>> :=
    [Some("0-4"), Some("4-8"), Some("8-12"), Some("12-16"), Some("16-20"), Some("20-24")]

  lemma BlockKeysDistinct()
    ensures NoDups(BlockKeys)
    ensures forall k :: 0 <= k < |BlockKeys| ==> BlockKeys[k] == Some(TimeLabels[k])
  {
    TimeLabelsDistinct();
    DistinctElementsNoDups(BlockKeys);
  }

  /** The six blocks partition the rows: when every hour is a valid 24-hour
      hour, the block sums add up to the sum of the whole value column, so
      every row is averaged into exactly one block. */
  lemma {:induction false} BlockSumsCoverColumn(hours: seq<int>, values: seq<real>)
    requires |values| == |hours|
    requires forall i :: 0 <= i < |hours| ==> 0 <= hours[i] < 24
    ensures SumOverKeys(Zip(BlockColumn(hours), values), (r: (Option<string>, real)) => r.0,
                        (r: (Option<string>, real)) => r.1, BlockKeys)
         == SumAll(values, (v: real) => v)
  {
    var rows := Zip(BlockColumn(hours), values);
    var key := (r: (Option<string>, real)) => r.0;
    var val := (r: (Option<string>, real)) => r.1;
    BlockKeysDistinct();
    SumOverKeysIsSumIn(rows, key, val, BlockKeys);
    forall i | 0 <= i < |rows| ensures key(rows[i]) in BlockKeys {
      TimeBlockOfHour(hours[i]);
      assert rows[i].0 == Some(TimeLabels[hours[i] / 4]) == BlockKeys[hours[i] / 4];
    }
    SumInCoversAll(rows, key, val, BlockKeys);
    ZipSum(BlockColumn(hours), values);
  }

  lemma {:induction false} ZipSum(blocks: seq<Option<string>>, values: seq<real>)
    requires |values| == |blocks|
    ensures SumAll(Zip(blocks, values), (r: (Option<string>, real)) => r.1) == SumAll(values, (v: real) => v)
  {
    if blocks != [] {
      assert Zip(blocks, values)[1..] == Zip(blocks[1..], values[1..]);
      ZipSum(blocks[1..], values[1..]);
    }
  }
}
