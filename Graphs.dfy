/** scripts/graphs.py, the figures of the dashboard: plot_heart_rate picks one
    exercise session of a user's day (a gap above 600 seconds starts a new
    session) and plot_sleep_duration_histogram measures each sleep log from
    its first to its last minute. The drawing itself is not modelled. */
module Graphs {
  import opened Frames
  import opened Clock
  import opened Sessions

  // ---------------------------------------------------------------------------
  // plot_heart_rate

  /** A row of the heart-rate frame: Id, Date, Time, TimeOfDay, Value. */
  datatype HeartRateRow = HeartRateRow(id: int, date: string, time: string, timeOfDay: string, value: int)

  /** Line 75: a gap of more than ten minutes starts a new session. */
  const SessionGap := 600

  /** Line 65: the rows of the requested user and day. */
  function UserDay(df: seq<HeartRateRow>, userId: int, date: string): (r: seq<HeartRateRow>)
    ensures forall x :: x in r <==> x in df && x.id == userId && x.date == date
    ensures forall x :: multiset(r)[x] == if x.id == userId && x.date == date then multiset(df)[x] else 0
  {
    FilterMultiplicity(df, (x: HeartRateRow) => x.id == userId && x.date == date);
    Filter(df, (x: HeartRateRow) => x.id == userId && x.date == date)
  }

  /** plot_heart_rate, lines 63-85: the samples of session nth_exercise of the
      user's day and the number of sessions, or the error raised. */
  method PlotHeartRate(df: seq<HeartRateRow>, userId: int, date: string, nthExercise: int)
    returns (r: Result<SessionPlot<HeartRateRow>, PlotError>)
    ensures r == ExerciseSessionOf(UserDay(df, userId, date), (x: HeartRateRow) => x.time,
                                   (x: HeartRateRow) => x.timeOfDay, SessionGap, nthExercise)
  {
    var userDf := UserDay(df, userId, date);
    r := ExerciseSession(userDf, (x: HeartRateRow) => x.time, (x: HeartRateRow) => x.timeOfDay, SessionGap, nthExercise);
  }

  /** Only samples of the requested user and day are plotted, in time order,
      as one unbroken run of that day's sorted samples; no session number is
      accepted for a user-day without samples. */
  lemma PlotHeartRateFacts(df: seq<HeartRateRow>, userId: int, date: string, nthExercise: int)
    requires ParseTimes(UserDay(df, userId, date), (x: HeartRateRow) => x.time, (x: HeartRateRow) => x.timeOfDay).Some?
    ensures var r := ExerciseSessionOf(UserDay(df, userId, date), (x: HeartRateRow) => x.time,
                                       (x: HeartRateRow) => x.timeOfDay, SessionGap, nthExercise);
      && (UserDay(df, userId, date) == [] ==> r.Failure?)
      && (r.Success? ==>
            && 1 <= nthExercise <= r.value.total
            && r.value.samples != []
            && SortedBy(r.value.samples, (t: Timed<HeartRateRow>) => t.seconds)
            && forall x :: x in r.value.samples ==> x.row in df && x.row.id == userId && x.row.date == date)
  {
    ExerciseSessionFacts(UserDay(df, userId, date), (x: HeartRateRow) => x.time, (x: HeartRateRow) => x.timeOfDay,
                         SessionGap, nthExercise);
  }

  // ---------------------------------------------------------------------------
  // plot_sleep_duration_histogram

  /** A row of the minute-sleep frame: logId, Date, Time, TimeOfDay. */
  datatype MinuteSleep = MinuteSleep(logId: int, date: string, time: string, timeOfDay: string)

  /** A minute of a sleep log as an instant in seconds. */
  datatype LogInstant = LogInstant(logId: int, instant: int)

  /** Lines 30-33: Date, Time and TimeOfDay read together under
      "%m/%d/%Y %I:%M:%S %p"; None when some row does not parse. */
  function SleepInstants(rows: seq<MinuteSleep>): (r: Option<seq<LogInstant>>)
    ensures r.Some? <==> forall i :: 0 <= i < |rows| ==>
      ParseDate(rows[i].date).Some? && ParseClock(rows[i].time, rows[i].timeOfDay).Some?
    ensures r.Some? ==> |r.value| == |rows| && forall i :: 0 <= i < |rows| ==> r.value[i].logId == rows[i].logId
    ensures r.Some? ==> forall i :: 0 <= i < |rows| ==>
      r.value[i].instant == Instant(ParseDate(rows[i].date).value, ParseClock(rows[i].time, rows[i].timeOfDay).value)
  {
    if forall i :: 0 <= i < |rows| ==> ParseDate(rows[i].date).Some? && ParseClock(rows[i].time, rows[i].timeOfDay).Some? then
      Some(seq(|rows|, i requires 0 <= i < |rows| =>
        LogInstant(rows[i].logId, Instant(ParseDate(rows[i].date).value, ParseClock(rows[i].time, rows[i].timeOfDay).value))))
    else None
  }

  /** The instants of one log. */
  function InstantsOf(xs: seq<LogInstant>, logId: int): (r: seq<int>)
    ensures forall t :: t in r <==> LogInstant(logId, t) in xs
  {
    var r := SelectWhere(xs, InLog(logId), InstantValue);
    assert forall t :: LogInstant(logId, t) in xs ==> exists i :: 0 <= i < |xs| && xs[i] == LogInstant(logId, t);
    r
  }

  function InLog(logId: int): LogInstant -> bool { (x: LogInstant) => x.logId == logId }
  function InstantValue(x: LogInstant): int { x.instant }

  function Earliest(s: seq<int>): (m: int)
    requires s != []
    ensures m in s && forall x :: x in s ==> m <= x
  {
    if |s| == 1 then s[0]
    else
      var rest := Earliest(s[1..]);
      assert forall x :: x in s ==> x == s[0] || x in s[1..];
      if s[0] <= rest then s[0] else rest
  }

  function Latest(s: seq<int>): (m: int)
    requires s != []
    ensures m in s && forall x :: x in s ==> x <= m
  {
    if |s| == 1 then s[0]
    else
      var rest := Latest(s[1..]);
      assert forall x :: x in s ==> x == s[0] || x in s[1..];
      if s[0] >= rest then s[0] else rest
  }

  /** One row of sleep_durations: the log, its first and last minute and the
      duration in hours. */
  datatype SleepDuration = SleepDuration(logId: int, earliest: int, latest: int, hours: real)

  function InstantLog(x: LogInstant): int { x.logId }
  function LogIds(xs: seq<LogInstant>): seq<int> { MapSeq(xs, InstantLog) }

  /** d measures its log in xs: from the earliest to the latest of the log's
      instants, both of which occur, in hours that are never negative. */
  ghost predicate SpansLog(d: SleepDuration, xs: seq<LogInstant>)
  {
    && LogInstant(d.logId, d.earliest) in xs && LogInstant(d.logId, d.latest) in xs
    && (forall t :: LogInstant(d.logId, t) in xs ==> d.earliest <= t <= d.latest)
    && d.hours >= 0.0 && d.hours * 3600.0 == (d.latest - d.earliest) as real
  }

  /** Line 37 for one log: `(max - min).dt.total_seconds() / 3600`. */
  function DurationOf(xs: seq<LogInstant>, logId: int): (d: SleepDuration)
    requires logId in LogIds(xs)
    ensures d.logId == logId && SpansLog(d, xs)
  {
    var i :| 0 <= i < |xs| && xs[i].logId == logId;
    assert LogInstant(logId, xs[i].instant) == xs[i];
    var ts := InstantsOf(xs, logId);
    assert xs[i].instant in ts;
    SleepDuration(logId, Earliest(ts), Latest(ts), (Latest(ts) - Earliest(ts)) as real / 3600.0)
  }

  function DurationLog(d: SleepDuration): int { d.logId }
  function DurationIds(r: seq<SleepDuration>): seq<int> { MapSeq(r, DurationLog) }

  /** Line 36: groupby("logId")["datetime"].agg(["min", "max"]): one row per
      log, in ascending logId order, and every log of the input has its row. */
  function DurationsOf(xs: seq<LogInstant>): (r: seq<SleepDuration>)
    ensures forall i, j :: 0 <= i < j < |r| ==> r[i].logId < r[j].logId
    ensures forall k :: k in DurationIds(r) <==> k in LogIds(xs)
    ensures forall i :: 0 <= i < |r| ==> SpansLog(r[i], xs)
  {
    var keys := GroupKeys(LogIds(xs));
    var r := seq(|keys|, i requires 0 <= i < |keys| => DurationOf(xs, keys[i]));
    assert DurationIds(r) == keys;
    r
  }

  /** plot_sleep_duration_histogram, lines 30-37: the sleep_durations table,
      or None where pd.to_datetime raises on some row. Each log of the input
      has exactly one row, and no duration is negative. */
  function SleepDurations(rows: seq<MinuteSleep>): (r: Option<seq<SleepDuration>>)
    ensures r.Some? <==> SleepInstants(rows).Some?
    ensures r.Some? ==> forall k :: k in DurationIds(r.value) <==> k in RowLogIds(rows)
    ensures r.Some? ==> NoDups(DurationIds(r.value))
    ensures r.Some? ==> forall i :: 0 <= i < |r.value| ==> r.value[i].hours >= 0.0
    ensures r.Some? ==> forall i :: 0 <= i < |r.value| ==> SpansLog(r.value[i], SleepInstants(rows).value)
  {
    match SleepInstants(rows)
    case None => None
    case Some(xs) =>
      var r := DurationsOf(xs);
      assert LogIds(xs) == RowLogIds(rows);
      DistinctElementsNoDups(DurationIds(r));
      Some(r)
  }

  function RowLog(x: MinuteSleep): int { x.logId }
  function RowLogIds(rows: seq<MinuteSleep>): seq<int> { MapSeq(rows, RowLog) }
}
