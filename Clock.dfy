/** Text and clock handling shared by the scripts: Python's str.split on a
    separator, decimal digits (int() of a digit string, str() of a number, the
    zero-padded %M/%S fields of strftime) and the two strptime formats the
    scripts hand to pd.to_datetime: "%I:%M:%S %p" for a time of day and
    "%m/%d/%Y" for a date. Times of day are seconds since midnight. */
module Clock {
  import opened Frames

  // ---------------------------------------------------------------------------
  // str.split(sep) and its inverse sep.join(parts)

  function IndexOf(s: string, c: char): (i: nat)
    requires c in s
    ensures i < |s| && s[i] == c && c !in s[..i]
  {
    if s[0] == c then 0
    else
      assert s == [s[0]] + s[1..];
      var i := IndexOf(s[1..], c);
      assert s[..i + 1] == [s[0]] + s[1..][..i];
      i + 1
  }

  /** The pieces of s between occurrences of sep, as Python's s.split(sep)
      returns them (empty pieces included, one piece when sep does not occur). */
  function Split(s: string, sep: char): (parts: seq<string>)
    ensures |parts| >= 1
    ensures forall k :: 0 <= k < |parts| ==> sep !in parts[k]
    decreases |s|
  {
    if sep !in s then [s]
    else
      var i := IndexOf(s, sep);
      [s[..i]] + Split(s[i + 1..], sep)
  }

  function Join(parts: seq<string>, sep: char): string
    requires |parts| >= 1
  {
    if |parts| == 1 then parts[0] else parts[0] + [sep] + Join(parts[1..], sep)
  }

  /** Splitting loses nothing: joining the pieces gives back the string. */
  lemma {:induction false} JoinSplit(s: string, sep: char)
    ensures Join(Split(s, sep), sep) == s
    decreases |s|
  {
    if sep in s {
      var i := IndexOf(s, sep);
      var p, rest := s[..i], s[i + 1..];
      assert s == p + [sep] + rest;
      SplitAtFirst(p, sep, rest);
      var parts := Split(s, sep);
      assert parts == [p] + Split(rest, sep);
      assert parts[1..] == Split(rest, sep);
      JoinSplit(rest, sep);
      assert Join(parts, sep) == p + [sep] + Join(Split(rest, sep), sep);
    }
  }

  /** Pieces free of the separator come back unchanged from joining and splitting. */
  lemma {:induction false} SplitJoin(parts: seq<string>, sep: char)
    requires |parts| >= 1
    requires forall k :: 0 <= k < |parts| ==> sep !in parts[k]
    ensures Split(Join(parts, sep), sep) == parts
  {
    if |parts| > 1 {
      var rest := Join(parts[1..], sep);
      assert Join(parts, sep) == parts[0] + [sep] + rest;
      SplitAtFirst(parts[0], sep, rest);
      SplitJoin(parts[1..], sep);
      assert parts == [parts[0]] + parts[1..];
    }
  }

  /** Splitting at the first separator: the text before it, then the pieces of the rest. */
  lemma SplitAtFirst(p: string, sep: char, rest: string)
    requires sep !in p
    ensures Split(p + [sep] + rest, sep) == [p] + Split(rest, sep)
  {
    var s := p + [sep] + rest;
    assert s[|p|] == sep;
    var i := IndexOf(s, sep);
    FirstSeparator(p, sep, rest, i);
    assert s[..i] == p;
    assert s[i + 1..] == rest;
  }

  lemma JoinThree(a: string, b: string, c: string, sep: char)
    ensures Join([a, b, c], sep) == a + [sep] + b + [sep] + c
  {
    assert [a, b, c][1..] == [b, c] && [b, c][1..] == [c];
    assert Join([c], sep) == c;
    assert Join([b, c], sep) == b + [sep] + c;
    assert Join([a, b, c], sep) == a + [sep] + (b + [sep] + c);
  }

  /** The first piece of s.split(sep) is the text before the first sep. */
  lemma SplitHead(p: string, sep: char, rest: string)
    requires sep !in p
    ensures Split(p + [sep] + rest, sep)[0] == p
  {
    var s := p + [sep] + rest;
    assert s[|p|] == sep;
    var i := IndexOf(s, sep);
    FirstSeparator(p, sep, rest, i);
    assert s[..i] == p;
  }

  /** In p + [sep] + rest with sep not in p, the first sep sits right after p. */
  lemma FirstSeparator(p: string, sep: char, rest: string, i: nat)
    requires sep !in p
    requires i < |p + [sep] + rest| && (p + [sep] + rest)[i] == sep && sep !in (p + [sep] + rest)[..i]
    ensures i == |p|
  {
    var s := p + [sep] + rest;
    forall k | 0 <= k < |p| ensures s[k] != sep {
      assert s[k] == p[k];
    }
    forall k | 0 <= k < i ensures s[k] != sep {
      assert s[k] == s[..i][k];
    }
    assert s[|p|] == sep;
  }

  // ---------------------------------------------------------------------------
  // Decimal digits

  predicate IsDigit(c: char)
  {
    '0' <= c <= '9'
  }

  predicate AllDigits(s: string)
  {
    forall i :: 0 <= i < |s| ==> IsDigit(s[i])
  }

  function DigitChar(d: nat): (c: char)
    requires d < 10
    ensures IsDigit(c) && c as int - '0' as int == d
  {
    ('0' as int + d) as char
  }

  /** The number a string of decimal digits denotes; leading zeros are allowed. */
  function ValueOf(s: string): nat
    requires AllDigits(s)
  {
    if s == [] then 0
    else ValueOf(s[..|s| - 1]) * 10 + (s[|s| - 1] as int - '0' as int)
  }

  /** int(s) for a string of ASCII digits; None where int() would raise. */
  function ParseNat(s: string): (r: Option<nat>)
    ensures r.Some? <==> s != [] && AllDigits(s)
  {
    if s != [] && AllDigits(s) then Some(ValueOf(s)) else None
  }

  /** str(n): the decimal digits of n without leading zeros. */
  function ShowNat(n: nat): (s: string)
    ensures s != [] && AllDigits(s) && ':' !in s && '/' !in s
    ensures |s| == 1 <==> n < 10
    ensures s[0] == '0' ==> n == 0
  {
    if n < 10 then [DigitChar(n)]
    else
      var s := ShowNat(n / 10) + [DigitChar(n % 10)];
      assert s[0] == ShowNat(n / 10)[0];
      s
  }

  /** Reading back the digits of str(n) gives n. */
  lemma {:induction false} ParseShowNat(n: nat)
    ensures ParseNat(ShowNat(n)) == Some(n)
  {
    var s := ShowNat(n);
    if n >= 10 {
      ParseShowNat(n / 10);
      assert s[..|s| - 1] == ShowNat(n / 10);
      assert ValueOf(s) == (n / 10) * 10 + n % 10;
    } else {
      assert s[..0] == [];
      assert ValueOf(s) == n;
    }
  }

  lemma ShowNatLength(n: nat)
    ensures |ShowNat(n)| == 1 <==> n < 10
    ensures 10 <= n < 100 ==> |ShowNat(n)| == 2
    ensures 1000 <= n < 10000 ==> |ShowNat(n)| == 4
  {
    if n >= 10 {
      ShowNatLength(n / 10);
    }
  }

  /** The two-digit zero-padded form of n (strftime's %M and %S). */
  function Pad2(n: nat): (s: string)
    requires n < 100
    ensures |s| == 2 && AllDigits(s) && ':' !in s
    ensures ParseNat(s) == Some(n)
  {
    var s := [DigitChar(n / 10), DigitChar(n % 10)];
    assert s[..1] == [DigitChar(n / 10)];
    assert s[..1][..0] == [];
    assert ValueOf(s[..1]) == n / 10;
    assert ValueOf(s) == (n / 10) * 10 + n % 10;
    s
  }

  // ---------------------------------------------------------------------------
  // strptime "%I:%M:%S %p": a 12-hour time of day to seconds since midnight

  /** A strptime numeric field of one or two digits whose value lies in lo..hi
      (%I takes 1..12, %M and %S 0..59). */
  function Field(s: string, lo: nat, hi: nat): (r: Option<nat>)
    ensures r.Some? ==> lo <= r.value <= hi && ParseNat(s) == r
  {
    if 1 <= |s| <= 2 && AllDigits(s) && lo <= ValueOf(s) <= hi then Some(ValueOf(s)) else None
  }

  /** %p: "AM" or "PM" in any letter case; Some(true) for PM. */
  function Meridiem(p: string): (r: Option<bool>)
    ensures p == "AM" ==> r == Some(false)
    ensures p == "PM" ==> r == Some(true)
    ensures r.Some? <==> |p| == 2 && p[0] in "AaPp" && p[1] in "Mm"
    ensures r.Some? ==> (r.value <==> p[0] in "Pp")
  {
    if |p| == 2 && (p[1] == 'M' || p[1] == 'm') then
      if p[0] == 'A' || p[0] == 'a' then Some(false)
      else if p[0] == 'P' || p[0] == 'p' then Some(true)
      else None
    else None
  }

  /** The hour strptime derives from %I and %p: 12 AM is 0, 12 PM is 12, any
      other PM hour moves up by 12. */
  function StrptimeHour(h: nat, pm: bool): (r: nat)
    requires 1 <= h <= 12
    ensures r < 24 && (r >= 12 <==> pm)
  {
    if !pm && h == 12 then 0 else if pm && h != 12 then h + 12 else h
  }

  /** The time `time + " " + p` denotes under format "%I:%M:%S %p", in seconds
      since midnight; None where pd.to_datetime raises. */
  function ParseClock(time: string, p: string): (r: Option<nat>)
    ensures r.Some? ==> r.value < 86400
    ensures r.Some? <==>
      var f := Split(time, ':');
      |f| == 3 && Field(f[0], 1, 12).Some? && Field(f[1], 0, 59).Some? && Field(f[2], 0, 59).Some?
      && Meridiem(p).Some?
  {
    var f := Split(time, ':');
    if |f| == 3 then
      match (Field(f[0], 1, 12), Field(f[1], 0, 59), Field(f[2], 0, 59), Meridiem(p))
      case (Some(h), Some(m), Some(s), Some(pm)) => Some(StrptimeHour(h, pm) * 3600 + m * 60 + s)
      case _ => None
    else None
  }

  /** Three valid fields joined by ':' with a valid %p parse to their time of day. */
  lemma ParseClockFields(a: string, b: string, c: string, p: string, h: nat, m: nat, s: nat, pm: bool)
    requires ':' !in a && ':' !in b && ':' !in c
    requires Field(a, 1, 12) == Some(h) && Field(b, 0, 59) == Some(m) && Field(c, 0, 59) == Some(s)
    requires Meridiem(p) == Some(pm)
    ensures 1 <= h <= 12
    ensures ParseClock(a + [':'] + b + [':'] + c, p) == Some(StrptimeHour(h, pm) * 3600 + m * 60 + s)
  {
    JoinThree(a, b, c, ':');
    SplitJoin([a, b, c], ':');
  }

  // ---------------------------------------------------------------------------
  // strptime "%m/%d/%Y": a calendar date

  datatype Date = Date(year: int, month: int, day: int)

  predicate IsLeapYear(y: int)
  {
    y % 4 == 0 && (y % 100 != 0 || y % 400 == 0)
  }

  function DaysInMonth(y: int, m: int): (n: int)
    requires 1 <= m <= 12
    ensures 28 <= n <= 31
  {
    if m == 2 then (if IsLeapYear(y) then 29 else 28)
    else if m == 4 || m == 6 || m == 9 || m == 11 then 30
    else 31
  }

  /** A date the Gregorian calendar has, in the years a four-digit %Y can name. */
  predicate ValidDate(d: Date)
  {
    1 <= d.year <= 9999 && 1 <= d.month <= 12 && 1 <= d.day <= DaysInMonth(d.year, d.month)
  }

  /** The date s denotes under format "%m/%d/%Y"; None where pd.to_datetime
      raises (a malformed field or a day the month does not have). */
  function ParseDate(s: string): (r: Option<Date>)
    ensures r.Some? ==> ValidDate(r.value)
  {
    var f := Split(s, '/');
    if |f| == 3 && |f[2]| == 4 then
      match (Field(f[0], 1, 12), Field(f[1], 1, 31), ParseNat(f[2]))
      case (Some(m), Some(d), Some(y)) =>
        if ValidDate(Date(y, m, d)) then Some(Date(y, m, d)) else None
      case _ => None
    else None
  }

  /** Days from 1970-01-01 to d, for d on or after 0001-01-01 (proleptic Gregorian). */
  function DaysFromCivil(d: Date): int
    requires ValidDate(d)
  {
    var y := if d.month <= 2 then d.year - 1 else d.year;
    var era := y / 400;
    var yoe := y - era * 400;
    var mp := if d.month > 2 then d.month - 3 else d.month + 9;
    var doy := (153 * mp + 2) / 5 + d.day - 1;
    var doe := yoe * 365 + yoe / 4 - yoe / 100 + doy;
    era * 146097 + doe - 719468
  }

  /** The instant a date and a time of day denote, in seconds from 1970-01-01 00:00:00. */
  function Instant(d: Date, secondOfDay: nat): int
    requires ValidDate(d)
  {
    DaysFromCivil(d) * 86400 + secondOfDay
  }

  /** The calendar day after d: the next day of the month, else the first of
      the next month, else New Year's Day. */
  function NextDay(d: Date): (r: Date)
    requires ValidDate(d)
    ensures d != Date(9999, 12, 31) ==> ValidDate(r)
  {
    if d.day < DaysInMonth(d.year, d.month) then Date(d.year, d.month, d.day + 1)
    else if d.month < 12 then Date(d.year, d.month + 1, 1)
    else Date(d.year + 1, 1, 1)
  }

  /** The day count starts at 1970-01-01. */
  lemma CivilEpoch()
    ensures DaysFromCivil(Date(1970, 1, 1)) == 0
  {
  }

  /** Consecutive calendar days are consecutive day numbers, across month
      ends, February 29th and year ends alike. */
  lemma DaysFromCivilNextDay(d: Date)
    requires ValidDate(d) && d != Date(9999, 12, 31)
    ensures DaysFromCivil(NextDay(d)) == DaysFromCivil(d) + 1
  {
    var n := NextDay(d);
    DaysFromCivilByMarchYear(d);
    DaysFromCivilByMarchYear(n);
    if d.day < DaysInMonth(d.year, d.month) {
      assert n == Date(d.year, d.month, d.day + 1) && MarchYear(n) == MarchYear(d);
    } else if d.month == 2 {
      assert n == Date(d.year, 3, 1);
      assert MarchYear(d) == d.year - 1 && MarchYear(n) == d.year;
      MarchYearLength(d.year - 1);
      assert DaysBeforeMonth(2) == 337 && DaysBeforeMonth(3) == 0;
    } else {
      MonthLengths(d.year, d.month);
      assert MarchYear(n) == MarchYear(d);
    }
  }

  /** The March-based year of d: January and February count with the year before. */
  function MarchYear(d: Date): int
  {
    if d.month <= 2 then d.year - 1 else d.year
  }

  /** The months of the March-based year, March first. */
  function MarchMonth(m: int): int
  {
    if m > 2 then m - 3 else m + 9
  }

  /** The days of the March-based year before the start of month m. */
  function DaysBeforeMonth(m: int): int
  {
    (153 * MarchMonth(m) + 2) / 5
  }

  lemma DaysFromCivilByMarchYear(d: Date)
    requires ValidDate(d)
    ensures DaysFromCivil(d) == MarchYearStart(MarchYear(d)) + DaysBeforeMonth(d.month) + d.day - 1 - 719468
  {
  }

  /** DaysBeforeMonth steps by the length of each month but February, and
      from December into January. */
  lemma MonthLengths(y: int, m: int)
    requires 1 <= m <= 12 && m != 2
    ensures m < 12 ==> DaysBeforeMonth(m + 1) == DaysBeforeMonth(m) + DaysInMonth(y, m)
    ensures m == 12 ==> DaysBeforeMonth(1) == DaysBeforeMonth(12) + 31
  {
    assert DaysBeforeMonth(1) == 306 && DaysBeforeMonth(3) == 0 && DaysBeforeMonth(4) == 31;
    assert DaysBeforeMonth(5) == 61 && DaysBeforeMonth(6) == 92 && DaysBeforeMonth(7) == 122;
    assert DaysBeforeMonth(8) == 153 && DaysBeforeMonth(9) == 184 && DaysBeforeMonth(10) == 214;
    assert DaysBeforeMonth(11) == 245 && DaysBeforeMonth(12) == 275 && DaysBeforeMonth(2) == 337;
  }

  /** Days of the March-based year y (March 1st of y to the end of February
      of y + 1) before its start, in the era arithmetic of DaysFromCivil. */
  function MarchYearStart(y: int): int
  {
    var era := y / 400;
    var yoe := y - era * 400;
    era * 146097 + yoe * 365 + yoe / 4 - yoe / 100
  }

  /** A March-based year has 366 days exactly when the February it ends in
      has a 29th. */
  lemma MarchYearLength(y: int)
    ensures MarchYearStart(y + 1) == MarchYearStart(y) + (if IsLeapYear(y + 1) then 366 else 365)
  {
    var era := y / 400;
    var yoe := y - era * 400;
    assert 0 <= yoe < 400;
    if yoe < 399 {
      assert (y + 1) / 400 == era;
      assert MarchYearStart(y + 1) == era * 146097 + (yoe + 1) * 365 + (yoe + 1) / 4 - (yoe + 1) / 100;
      QuotientStep(yoe);
      LeapInEra(era, yoe + 1);
    } else {
      assert (y + 1) / 400 == era + 1;
      assert MarchYearStart(y + 1) == (era + 1) * 146097;
      assert MarchYearStart(y) == era * 146097 + 145731;
      LeapInEra(era + 1, 0);
    }
  }

  /** How the century and four-year quotients step from n to n + 1. */
  lemma QuotientStep(n: nat)
    ensures (n + 1) / 4 == n / 4 + (if (n + 1) % 4 == 0 then 1 else 0)
    ensures (n + 1) / 100 == n / 100 + (if (n + 1) % 100 == 0 then 1 else 0)
    ensures (n + 1) % 100 == 0 ==> (n + 1) % 4 == 0
  {
  }

  /** Leap years repeat every 400 years. */
  lemma LeapInEra(era: int, yoe: int)
    requires 0 <= yoe < 400
    ensures IsLeapYear(era * 400 + yoe) <==> yoe % 4 == 0 && (yoe % 100 != 0 || yoe == 0)
  {
    var y := era * 400 + yoe;
    var c := era * 4;
    var q := c * 25;
    assert y == q * 4 + yoe && y == c * 100 + yoe && y == era * 400 + yoe;
    ShiftMod4(q, yoe);
    ShiftMod100(c, yoe);
    ShiftMod400(era, yoe);
  }

  lemma ShiftMod4(k: int, r: int)
    ensures (k * 4 + r) % 4 == r % 4
  {
  }

  lemma ShiftMod100(k: int, r: int)
    ensures (k * 100 + r) % 100 == r % 100
  {
  }

  lemma ShiftMod400(k: int, r: int)
    ensures (k * 400 + r) % 400 == r % 400
  {
  }

  /** An instant on the next day is 86400 seconds after the same time of day
      on d, so a sleep log that runs past midnight is measured across it. */
  lemma InstantNextDay(d: Date, secondOfDay: nat)
    requires ValidDate(d) && d != Date(9999, 12, 31)
    ensures Instant(NextDay(d), secondOfDay) == Instant(d, secondOfDay) + 86400
  {
    DaysFromCivilNextDay(d);
  }
}
