/** Exercise sessions in a day of heart-rate samples, as plot_heart_rate in
    scripts/graphs.py and scripts/part3_graphs.py finds them: over samples
    sorted by time of day, TimeDiff is the gap to the previous sample (0 for
    the first), and Session is 1 plus the running count of gaps above a
    threshold. The two scripts differ only in the threshold. */
module Sessions {
  import opened Frames
  import opened Clock

  /** TimeDiff of sample i: `diff().dt.total_seconds().fillna(0)`. */
  function Gap(times: seq<int>, i: nat): int
    requires i < |times|
  {
    if i == 0 then 0 else times[i] - times[i - 1]
  }

  /** `(TimeDiff > threshold).cumsum()` at sample i: how many of samples 0..i
      open a new session. */
  function Breaks(times: seq<int>, threshold: int, i: nat): (n: nat)
    requires i < |times|
    ensures n <= i + 1
  {
    (if i == 0 then 0 else Breaks(times, threshold, i - 1)) + (if Gap(times, i) > threshold then 1 else 0)
  }

  /** The Session column. */
  function SessionNumbers(times: seq<int>, threshold: int): (s: seq<int>)
    ensures |s| == |times|
  {
    seq(|times|, i requires 0 <= i < |times| => 1 + Breaks(times, threshold, i))
  }

  /** The Session column computed as the scripts do it, one running count over
      the samples in order. */
  method NumberSessions(times: seq<int>, threshold: int) returns (sessions: seq<int>)
    ensures sessions == SessionNumbers(times, threshold)
  {
    var count := 0;
    sessions := [];
    for i := 0 to |times|
      invariant |sessions| == i
      invariant forall k :: 0 <= k < i ==> sessions[k] == 1 + Breaks(times, threshold, k)
      invariant i > 0 ==> count == Breaks(times, threshold, i - 1)
      invariant i == 0 ==> count == 0
    {
      var gap := if i == 0 then 0 else times[i] - times[i - 1];
      if gap > threshold {
        count := count + 1;
      }
      sessions := sessions + [count + 1];
    }
  }

  // ---------------------------------------------------------------------------
  // Session numberings: start at 1, never fall, never skip

  predicate Numbering(s: seq<int>)
  {
    && (|s| > 0 ==> s[0] == 1)
    && forall i :: 0 < i < |s| ==> s[i - 1] <= s[i] <= s[i - 1] + 1
  }

  /** With a threshold that is not negative the Session column is a numbering,
      and it moves up by one exactly where the gap exceeds the threshold. */
  lemma SessionNumbersAreNumbering(times: seq<int>, threshold: int)
    requires threshold >= 0
    ensures Numbering(SessionNumbers(times, threshold))
    ensures var s := SessionNumbers(times, threshold);
      forall i :: 0 < i < |s| ==> (s[i] == s[i - 1] + 1 <==> times[i] - times[i - 1] > threshold)
  {
  }

  lemma {:induction false} NumberingMonotone(s: seq<int>, i: nat, j: nat)
    requires Numbering(s)
    requires i <= j < |s|
    ensures s[i] <= s[j]
    decreases j - i
  {
    if i < j {
      NumberingMonotone(s, i, j - 1);
    }
  }

  /** Every session number lies between 1 and the last one. */
  lemma NumberingBounds(s: seq<int>)
    requires Numbering(s) && s != []
    ensures forall i :: 0 <= i < |s| ==> 1 <= s[i] <= s[|s| - 1]
  {
    forall i | 0 <= i < |s| ensures 1 <= s[i] <= s[|s| - 1] {
      NumberingMonotone(s, 0, i);
      NumberingMonotone(s, i, |s| - 1);
    }
  }

  /** Every number from 1 to the last one is some sample's session. */
  lemma {:induction false} NumberingAttains(s: seq<int>, v: int)
    requires Numbering(s) && s != []
    requires 1 <= v <= s[|s| - 1]
    ensures v in s
  {
    if v != s[|s| - 1] {
      var init := s[..|s| - 1];
      assert |s| > 1;
      assert init[|init| - 1] == s[|s| - 2];
      NumberingAttains(init, v);
    }
  }

  /** The session numbers 1..n. */
  function Range(n: int): (r: set<int>)
    ensures forall v :: v in r <==> 1 <= v <= n
    ensures n >= 0 ==> |r| == n
  {
    if n <= 0 then {} else Range(n - 1) + {n}
  }

  /** total_sessions, `Session.nunique()`: the last session number, 0 without samples. */
  lemma TotalSessions(s: seq<int>)
    requires Numbering(s)
    ensures NUnique(s) == if s == [] then 0 else s[|s| - 1]
  {
    if s != [] {
      NumberingBounds(s);
      var last := s[|s| - 1];
      forall v | 1 <= v <= last ensures v in s {
        NumberingAttains(s, v);
      }
      assert (set x | x in s) == Range(last);
    } else {
      assert (set x | x in s) == {};
    }
  }

  // ---------------------------------------------------------------------------
  // Selecting a session

  /** `df[df["Session"] == n]`: the rows whose session is n, in order. */
  function Select<T>(rows: seq<T>, sessions: seq<int>, n: int): (r: seq<T>)
    requires |sessions| == |rows|
    ensures |r| <= |rows|
    ensures forall x :: x in r ==> x in rows
  {
    if rows == [] then []
    else (if sessions[0] == n then [rows[0]] else []) + Select(rows[1..], sessions[1..], n)
  }

  /** The first index whose number is at least n, or |s| when there is none. */
  function FirstAtLeast(s: seq<int>, n: int): (k: nat)
    ensures k <= |s|
    ensures forall i :: 0 <= i < k ==> s[i] < n
    ensures k < |s| ==> s[k] >= n
  {
    if s == [] then 0
    else if s[0] >= n then 0
    else 1 + FirstAtLeast(s[1..], n)
  }

  /** Picking the rows whose session is n takes exactly the index range where
      the sessions equal n. */
  lemma {:induction false} SelectRange<T>(rows: seq<T>, sessions: seq<int>, n: int, lo: nat, hi: nat)
    requires |sessions| == |rows| && lo <= hi <= |rows|
    requires forall i :: 0 <= i < |rows| ==> (sessions[i] == n <==> lo <= i < hi)
    ensures Select(rows, sessions, n) == rows[lo..hi]
  {
    if rows != [] {
      if lo > 0 {
        SelectRange(rows[1..], sessions[1..], n, lo - 1, hi - 1);
        assert rows[1..][lo - 1..hi - 1] == rows[lo..hi];
      } else if hi > 0 {
        SelectRange(rows[1..], sessions[1..], n, 0, hi - 1);
        assert [rows[0]] + rows[1..][0..hi - 1] == rows[0..hi];
      } else {
        SelectRange(rows[1..], sessions[1..], n, 0, 0);
      }
    }
  }

  /** For a session number n from 1 to total, the rows of session n are a
      non-empty run of consecutive rows, and no other row has that number. */
  lemma SessionIsRun<T>(rows: seq<T>, sessions: seq<int>, n: int)
    requires |sessions| == |rows| && Numbering(sessions)
    requires 1 <= n <= NUnique(sessions)
    ensures exists lo, hi ::
      && 0 <= lo < hi <= |rows|
      && Select(rows, sessions, n) == rows[lo..hi]
      && forall i :: 0 <= i < |rows| ==> (sessions[i] == n <==> lo <= i < hi)
  {
    TotalSessions(sessions);
    var s := sessions;
    NumberingAttains(s, n);
    var lo := FirstAtLeast(s, n);
    var hi := FirstAtLeast(s, n + 1);
    assert lo < |s|;
    assert s[lo] == n by {
      if lo > 0 {
        assert s[lo - 1] < n;
      }
    }
    forall i | 0 <= i < |s| ensures s[i] == n <==> lo <= i < hi {
      if lo <= i {
        NumberingMonotone(s, lo, i);
      }
      if hi <= i {
        NumberingMonotone(s, hi, i);
      }
    }
    SelectRange(rows, s, n, lo, hi);
  }

  // ---------------------------------------------------------------------------
  // A day of samples: parse, sort, number, check, select

  /** A row with its time of day in seconds since midnight. */
  datatype Timed<R> = Timed(row: R, seconds: int)

  /** `pd.to_datetime(time + " " + TimeOfDay, format="%I:%M:%S %p")` on every
      row; None where some row does not parse (pandas raises ValueError). */
  function ParseTimes<R>(rows: seq<R>, time: R -> string, timeOfDay: R -> string): (r: Option<seq<Timed<R>>>)
    ensures r.Some? <==> forall i :: 0 <= i < |rows| ==> ParseClock(time(rows[i]), timeOfDay(rows[i])).Some?
    ensures r.Some? ==> |r.value| == |rows| && forall i :: 0 <= i < |rows| ==>
      r.value[i] == Timed(rows[i], ParseClock(time(rows[i]), timeOfDay(rows[i])).value)
  {
    if forall i :: 0 <= i < |rows| ==> ParseClock(time(rows[i]), timeOfDay(rows[i])).Some? then
      Some(seq(|rows|, i requires 0 <= i < |rows| => Timed(rows[i], ParseClock(time(rows[i]), timeOfDay(rows[i])).value)))
    else None
  }

  function Seconds<R>(s: seq<Timed<R>>): (r: seq<int>)
    ensures |r| == |s| && forall i :: 0 <= i < |s| ==> r[i] == s[i].seconds
  {
    seq(|s|, i requires 0 <= i < |s| => s[i].seconds)
  }

  /** `sort_values(by=time)`. */
  function SortByTime<R>(s: seq<Timed<R>>): (r: seq<Timed<R>>)
    ensures SortedBy(r, (t: Timed<R>) => t.seconds) && multiset(r) == multiset(s) && |r| == |s|
  {
    SortBy(s, (t: Timed<R>) => t.seconds)
  }

  datatype SessionPlot<R> = SessionPlot(samples: seq<Timed<R>>, session: int, total: nat)

  datatype PlotError = UnparsableTime | InvalidSession(n: int, total: nat)

  /** What plot_heart_rate plots for the day's rows and session n: the samples
      of session n with the session count, or the error it raises. */
  function ExerciseSessionOf<R>(rows: seq<R>, time: R -> string, timeOfDay: R -> string, threshold: int, n: int)
    : (r: Result<SessionPlot<R>, PlotError>)
  {
    match ParseTimes(rows, time, timeOfDay)
    case None => Failure(UnparsableTime)
    case Some(parsed) =>
      var sorted := SortByTime(parsed);
      var sessions := SessionNumbers(Seconds(sorted), threshold);
      var total := NUnique(sessions);
      if n > total || n < 1 then Failure(InvalidSession(n, total))
      else Success(SessionPlot(Select(sorted, sessions, n), n, total))
  }

  /** The steps of plot_heart_rate after its rows are fetched: parse, sort,
      number the sessions with the running count, check n, select. */
  method ExerciseSession<R>(rows: seq<R>, time: R -> string, timeOfDay: R -> string, threshold: int, n: int)
    returns (r: Result<SessionPlot<R>, PlotError>)
    ensures r == ExerciseSessionOf(rows, time, timeOfDay, threshold, n)
  {
    var parsed := ParseTimes(rows, time, timeOfDay);
    if parsed.None? {
      return Failure(UnparsableTime);
    }
    var sorted := SortByTime(parsed.value);
    var sessions := NumberSessions(Seconds(sorted), threshold);
    var total := NUnique(sessions);
    if n > total || n < 1 {
      return Failure(InvalidSession(n, total));
    }
    r := Success(SessionPlot(Select(sorted, sessions, n), n, total));
  }

  /** What plot_heart_rate promises: n is rejected exactly when it lies outside
      1..total_sessions (always, without samples); total_sessions is the number
      of the last session; an accepted session is a non-empty run of
      consecutive samples in time order, made of rows handed in. */
  lemma ExerciseSessionFacts<R>(rows: seq<R>, time: R -> string, timeOfDay: R -> string, threshold: int, n: int)
    requires threshold >= 0
    requires ParseTimes(rows, time, timeOfDay).Some?
    ensures var r := ExerciseSessionOf(rows, time, timeOfDay, threshold, n);
      var sorted := SortByTime(ParseTimes(rows, time, timeOfDay).value);
      var sessions := SessionNumbers(Seconds(sorted), threshold);
      && NUnique(sessions) == (if rows == [] then 0 else sessions[|sessions| - 1])
      && (r.Failure? <==> n < 1 || n > NUnique(sessions))
      && (r.Success? ==>
            && r.value.samples != []
            && (exists lo, hi :: 0 <= lo < hi <= |sorted| && r.value.samples == sorted[lo..hi])
            && SortedBy(r.value.samples, (t: Timed<R>) => t.seconds)
            && forall x :: x in r.value.samples ==> x.row in rows)
  {
    var parsed := ParseTimes(rows, time, timeOfDay).value;
    var sorted := SortByTime(parsed);
    var sessions := SessionNumbers(Seconds(sorted), threshold);
    SessionNumbersAreNumbering(Seconds(sorted), threshold);
    TotalSessions(sessions);
    if 1 <= n <= NUnique(sessions) {
      SelectedRun(sorted, sessions, n);
      forall x | x in Select(sorted, sessions, n) ensures x.row in rows {
        assert x in multiset(parsed);
        var i :| 0 <= i < |parsed| && parsed[i] == x;
      }
    }
  }

  /** A selected session of time-sorted samples is a non-empty sorted run. */
  lemma SelectedRun<R>(sorted: seq<Timed<R>>, sessions: seq<int>, n: int)
    requires SortedBy(sorted, (t: Timed<R>) => t.seconds)
    requires |sessions| == |sorted| && Numbering(sessions)
    requires 1 <= n <= NUnique(sessions)
    ensures Select(sorted, sessions, n) != []
    ensures exists lo, hi :: 0 <= lo < hi <= |sorted| && Select(sorted, sessions, n) == sorted[lo..hi]
    ensures SortedBy(Select(sorted, sessions, n), (t: Timed<R>) => t.seconds)
  {
    SessionIsRun(sorted, sessions, n);
    var lo, hi :| 0 <= lo < hi <= |sorted| && Select(sorted, sessions, n) == sorted[lo..hi];
    var run := sorted[lo..hi];
    assert run[0] == sorted[lo];
    forall i, j | 0 <= i < j < |run| ensures run[i].seconds <= run[j].seconds {
      assert run[i] == sorted[lo + i] && run[j] == sorted[lo + j];
    }
  }
}
