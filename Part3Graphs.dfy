/** scripts/part3_graphs.py: the same two views as the dashboard, fetched with
    SQL. plot_heart_rate numbers sessions with a five-minute gap; and
    plot_total_intensity orders a user's hourly intensities by time of day. */
module Part3Graphs {
  import opened Frames
  import opened Clock
  import opened Sessions

  /** A row of the heart_rate table. */
  datatype HeartRateRecord = HeartRateRecord(id: int, date: string, time: string, timeOfDay: string, value: int)

  /** The three columns the query selects (Time, TimeOfDay, Value as HeartRate). */
  datatype HeartRateSample = HeartRateSample(time: string, timeOfDay: string, heartRate: int)

  /** Line 43: a gap of more than five minutes starts a new session. */
  const SessionGap := 300

  /** The WHERE clause of lines 23-28: the user's records of the day. */
  function OnUserDay(userId: int, date: string): HeartRateRecord -> bool
  {
    (t: HeartRateRecord) => t.id == userId && t.date == date
  }

  function ToSample(t: HeartRateRecord): HeartRateSample { HeartRateSample(t.time, t.timeOfDay, t.value) }

  /** Lines 23-28: `SELECT Time, TimeOfDay, Value FROM heart_rate WHERE Id = ? AND Date = ?`:
      one sample per matching record, so a sample occurs as often as there are
      matching records holding it. */
  function FetchHeartRate(table: seq<HeartRateRecord>, userId: int, date: string): (r: seq<HeartRateSample>)
    ensures |r| == Count(table, OnUserDay(userId, date)) <= |table|
    ensures forall x :: x in r <==>
      exists i :: 0 <= i < |table| && table[i].id == userId && table[i].date == date
        && x == HeartRateSample(table[i].time, table[i].timeOfDay, table[i].value)
    ensures forall x :: multiset(r)[x] == Count(table, Yields(OnUserDay(userId, date), ToSample, x))
  {
    SelectWhere(table, OnUserDay(userId, date), ToSample)
  }

  /** plot_heart_rate, lines 23-53: the samples of session nth_exercise and the
      number of sessions, or the error raised. */
  method PlotHeartRate(table: seq<HeartRateRecord>, userId: int, date: string, nthExercise: int)
    returns (r: Result<SessionPlot<HeartRateSample>, PlotError>)
    ensures r == ExerciseSessionOf(FetchHeartRate(table, userId, date), (x: HeartRateSample) => x.time,
                                   (x: HeartRateSample) => x.timeOfDay, SessionGap, nthExercise)
  {
    var rows := FetchHeartRate(table, userId, date);
    r := ExerciseSession(rows, (x: HeartRateSample) => x.time, (x: HeartRateSample) => x.timeOfDay, SessionGap, nthExercise);
  }

  /** With a five-minute gap, consecutive sorted samples share a session
      exactly when they are at most 300 seconds apart, and a session number is
      accepted exactly from 1 to the number of the last session. */
  lemma PlotHeartRateFacts(table: seq<HeartRateRecord>, userId: int, date: string, nthExercise: int)
    requires ParseTimes(FetchHeartRate(table, userId, date), (x: HeartRateSample) => x.time,
                        (x: HeartRateSample) => x.timeOfDay).Some?
    ensures var rows := FetchHeartRate(table, userId, date);
      var sorted := SortByTime(ParseTimes(rows, (x: HeartRateSample) => x.time, (x: HeartRateSample) => x.timeOfDay).value);
      var sessions := SessionNumbers(Seconds(sorted), SessionGap);
      var r := ExerciseSessionOf(rows, (x: HeartRateSample) => x.time, (x: HeartRateSample) => x.timeOfDay,
                                 SessionGap, nthExercise);
      && (forall i :: 0 < i < |sessions| ==>
            (sessions[i] == sessions[i - 1] <==> sorted[i].seconds - sorted[i - 1].seconds <= 300))
      && (r.Failure? <==> nthExercise < 1 || (rows == [] || nthExercise > sessions[|sessions| - 1]))
      && (r.Success? ==> r.value.samples != [] && forall x :: x in r.value.samples ==> x.row in rows)
  {
    FetchedSessionFacts(FetchHeartRate(table, userId, date), nthExercise);
  }

  lemma FetchedSessionFacts(rows: seq<HeartRateSample>, nthExercise: int)
    requires ParseTimes(rows, (x: HeartRateSample) => x.time, (x: HeartRateSample) => x.timeOfDay).Some?
    ensures var sorted := SortByTime(ParseTimes(rows, (x: HeartRateSample) => x.time, (x: HeartRateSample) => x.timeOfDay).value);
      var sessions := SessionNumbers(Seconds(sorted), SessionGap);
      var r := ExerciseSessionOf(rows, (x: HeartRateSample) => x.time, (x: HeartRateSample) => x.timeOfDay,
                                 SessionGap, nthExercise);
      && (forall i :: 0 < i < |sessions| ==>
            (sessions[i] == sessions[i - 1] <==> sorted[i].seconds - sorted[i - 1].seconds <= 300))
      && (r.Failure? <==> nthExercise < 1 || (rows == [] || nthExercise > sessions[|sessions| - 1]))
      && (r.Success? ==> r.value.samples != [] && forall x :: x in r.value.samples ==> x.row in rows)
  {
    var time := (x: HeartRateSample) => x.time;
    var timeOfDay := (x: HeartRateSample) => x.timeOfDay;
    var sorted := SortByTime(ParseTimes(rows, time, timeOfDay).value);
    SessionNumbersAreNumbering(Seconds(sorted), SessionGap);
    ExerciseSessionFacts(rows, time, timeOfDay, SessionGap, nthExercise);
  }

  // ---------------------------------------------------------------------------
  // plot_total_intensity

  /** A row of the hourly_intensity table. */
  datatype IntensityRecord = IntensityRecord(id: int, date: string, activityHour: string, timeOfDay: string, totalIntensity: int)

  /** The columns the query selects (ActivityHour, TimeOfDay, TotalIntensity). */
  datatype IntensitySample = IntensitySample(activityHour: string, timeOfDay: string, totalIntensity: int)

  /** The WHERE clause of lines 84-89: the user's rows of the day. */
  function IntensityOnUserDay(userId: int, date: string): IntensityRecord -> bool
  {
    (t: IntensityRecord) => t.id == userId && t.date == date
  }

  function ToIntensitySample(t: IntensityRecord): IntensitySample { IntensitySample(t.activityHour, t.timeOfDay, t.totalIntensity) }

  /** Lines 84-89: the user's rows of the day, in no particular order, one
      sample per matching row. */
  function FetchIntensity(table: seq<IntensityRecord>, userId: int, date: string): (r: seq<IntensitySample>)
    ensures |r| == Count(table, IntensityOnUserDay(userId, date))
    ensures forall x :: x in r <==>
      exists i :: 0 <= i < |table| && table[i].id == userId && table[i].date == date
        && x == IntensitySample(table[i].activityHour, table[i].timeOfDay, table[i].totalIntensity)
    ensures forall x :: multiset(r)[x] == Count(table, Yields(IntensityOnUserDay(userId, date), ToIntensitySample, x))
  {
    SelectWhere(table, IntensityOnUserDay(userId, date), ToIntensitySample)
  }

  /** The fetched rows with their parsed ActivityHour, in fetch order. */
  function ParsedIntensity(table: seq<IntensityRecord>, userId: int, date: string): Option<seq<Timed<IntensitySample>>>
  {
    ParseTimes(FetchIntensity(table, userId, date), (x: IntensitySample) => x.activityHour, (x: IntensitySample) => x.timeOfDay)
  }

  /** plot_total_intensity, lines 84-101: the day's intensities reordered into
      ascending order of their parsed ActivityHour, each fetched row exactly
      as often as it was fetched; None where pd.to_datetime raises. */
  function PlotTotalIntensity(table: seq<IntensityRecord>, userId: int, date: string): (r: Option<seq<Timed<IntensitySample>>>)
    ensures r.Some? <==> ParsedIntensity(table, userId, date).Some?
    ensures r.Some? ==>
      && (forall i, j :: 0 <= i < j < |r.value| ==> r.value[i].seconds <= r.value[j].seconds)
      && multiset(r.value) == multiset(ParsedIntensity(table, userId, date).value)
  {
    var parsed := ParsedIntensity(table, userId, date);
    if parsed.Some? then Some(SortByTime(parsed.value)) else None
  }
}
