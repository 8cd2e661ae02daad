/** Table primitives that the scripts take from pandas and SQL: counting and
    filtering rows, per-key sums (groupby ... sum), distinct values (nunique,
    GROUP BY), sorting by a column (sort_values, groupby's sorted keys) and the
    inner join of pandas.merge. A table is a sequence of row records. */
module Frames {

  datatype Option<T> = None | Some(value: T)

  datatype Result<T, E> = Success(value: T) | Failure(error: E)

  // ---------------------------------------------------------------------------
  // Counting and filtering

  /** Number of rows of s that satisfy p. */
  function Count<T>(s: seq<T>, p: T -> bool): (n: nat)
    ensures n <= |s|
    ensures n == 0 <==> forall i :: 0 <= i < |s| ==> !p(s[i])
  {
    if s == [] then 0
    else
      var rest := Count(s[1..], p);
      assert forall i :: 1 <= i < |s| ==> s[i] == s[1..][i - 1];
      (if p(s[0]) then 1 else 0) + rest
  }

  /** The rows of s that satisfy p, in their original order (a boolean mask `df[mask]`). */
  function Filter<T(!new)>(s: seq<T>, p: T -> bool): (r: seq<T>)
    ensures |r| == Count(s, p)
    ensures forall x :: x in r <==> x in s && p(x)
  {
    if s == [] then []
    else
      assert forall x :: x in s <==> x == s[0] || x in s[1..];
      (if p(s[0]) then [s[0]] else []) + Filter(s[1..], p)
  }

  /** A mask keeps each satisfying row as often as it occurs, and no other row. */
  lemma {:induction false} FilterMultiplicity<T(!new)>(s: seq<T>, p: T -> bool)
    ensures forall x :: multiset(Filter(s, p))[x] == if p(x) then multiset(s)[x] else 0
  {
    if s != [] {
      FilterMultiplicity(s[1..], p);
      assert s == [s[0]] + s[1..];
      var head := if p(s[0]) then [s[0]] else [];
      assert Filter(s, p) == head + Filter(s[1..], p);
      assert multiset(Filter(s, p)) == multiset(head) + multiset(Filter(s[1..], p));
      assert multiset(s) == multiset{s[0]} + multiset(s[1..]);
    }
  }

  /** Filtering distributes over concatenation, so it keeps the relative order of rows. */
  lemma {:induction false} FilterAppend<T(!new)>(a: seq<T>, b: seq<T>, p: T -> bool)
    ensures Filter(a + b, p) == Filter(a, p) + Filter(b, p)
  {
    if a != [] {
      assert (a + b)[1..] == a[1..] + b;
      FilterAppend(a[1..], b, p);
    } else {
      assert a + b == b;
    }
  }

  // ---------------------------------------------------------------------------
  // Sums per key (groupby(key)[val].sum())

  /** Sum of val over all rows. */
  function SumAll<T>(rows: seq<T>, val: T -> real): real
  {
    if rows == [] then 0.0 else val(rows[0]) + SumAll(rows[1..], val)
  }

  /** Sum of val over the rows whose key is k: the group total of k. */
  function SumFor<T, K(==)>(rows: seq<T>, key: T -> K, val: T -> real, k: K): real
  {
    if rows == [] then 0.0
    else (if key(rows[0]) == k then val(rows[0]) else 0.0) + SumFor(rows[1..], key, val, k)
  }

  /** Sum of val over the rows whose key is one of ks. */
  function SumIn<T, K(==)>(rows: seq<T>, key: T -> K, val: T -> real, ks: seq<K>): real
  {
    if rows == [] then 0.0
    else (if key(rows[0]) in ks then val(rows[0]) else 0.0) + SumIn(rows[1..], key, val, ks)
  }

  /** The group totals of the keys ks, added up. */
  function SumOverKeys<T, K(==)>(rows: seq<T>, key: T -> K, val: T -> real, ks: seq<K>): real
  {
    if ks == [] then 0.0
    else SumFor(rows, key, val, ks[0]) + SumOverKeys(rows, key, val, ks[1..])
  }

  /** What one row adds to the group totals of ks. */
  function RowShare<T, K(==)>(x: T, key: T -> K, val: T -> real, ks: seq<K>): real
  {
    if ks == [] then 0.0
    else (if key(x) == ks[0] then val(x) else 0.0) + RowShare(x, key, val, ks[1..])
  }

  lemma {:induction false} RowShareOnce<T, K(!new)>(x: T, key: T -> K, val: T -> real, ks: seq<K>)
    requires NoDups(ks)
    ensures RowShare(x, key, val, ks) == if key(x) in ks then val(x) else 0.0
  {
    if ks != [] {
      NoDupsTail(ks);
      RowShareOnce(x, key, val, ks[1..]);
      assert key(x) in ks <==> key(x) == ks[0] || key(x) in ks[1..];
    }
  }

  lemma {:induction false} SumOverKeysStep<T, K>(rows: seq<T>, key: T -> K, val: T -> real, ks: seq<K>)
    requires rows != []
    ensures SumOverKeys(rows, key, val, ks)
         == RowShare(rows[0], key, val, ks) + SumOverKeys(rows[1..], key, val, ks)
  {
    if ks != [] {
      SumOverKeysStep(rows, key, val, ks[1..]);
    }
  }

  /** Summing the group totals of distinct keys gives the total over the rows
      whose key is among them: no row is counted twice or lost. */
  lemma {:induction false} SumOverKeysIsSumIn<T, K(!new)>(rows: seq<T>, key: T -> K, val: T -> real, ks: seq<K>)
    requires NoDups(ks)
    ensures SumOverKeys(rows, key, val, ks) == SumIn(rows, key, val, ks)
  {
    if rows == [] {
      SumOverKeysOfNothing(key, val, ks);
    } else {
      SumOverKeysStep(rows, key, val, ks);
      RowShareOnce(rows[0], key, val, ks);
      SumOverKeysIsSumIn(rows[1..], key, val, ks);
    }
  }

  lemma {:induction false} SumOverKeysOfNothing<T, K>(key: T -> K, val: T -> real, ks: seq<K>)
    ensures SumOverKeys([], key, val, ks) == 0.0
  {
    if ks != [] {
      SumOverKeysOfNothing(key, val, ks[1..]);
    }
  }

  /** When every row's key is among ks, SumIn is the sum over all rows. */
  lemma {:induction false} SumInCoversAll<T, K>(rows: seq<T>, key: T -> K, val: T -> real, ks: seq<K>)
    requires forall i :: 0 <= i < |rows| ==> key(rows[i]) in ks
    ensures SumIn(rows, key, val, ks) == SumAll(rows, val)
  {
    if rows != [] {
      assert key(rows[0]) in ks;
      assert forall i :: 0 <= i < |rows[1..]| ==> rows[1..][i] == rows[i + 1];
      SumInCoversAll(rows[1..], key, val, ks);
    }
  }

  // ---------------------------------------------------------------------------
  // Distinct values

  /** s holds no value twice. */
  ghost predicate NoDups<T(!new)>(s: seq<T>)
  {
    forall x :: multiset(s)[x] <= 1
  }

  lemma NoDupsTail<T(!new)>(s: seq<T>)
    requires NoDups(s) && s != []
    ensures NoDups(s[1..]) && s[0] !in s[1..]
  {
    assert s == [s[0]] + s[1..];
    assert multiset(s) == multiset{s[0]} + multiset(s[1..]);
    forall x ensures multiset(s[1..])[x] <= 1 {
      assert multiset(s)[x] == multiset{s[0]}[x] + multiset(s[1..])[x];
    }
    assert multiset(s)[s[0]] == 1 + multiset(s[1..])[s[0]];
  }

  lemma NoDupsCons<T(!new)>(x: T, s: seq<T>)
    requires NoDups(s) && x !in s
    ensures NoDups([x] + s)
  {
    assert multiset([x] + s) == multiset{x} + multiset(s);
  }

  /** Pairwise different elements means no duplicates. */
  lemma {:induction false} DistinctElementsNoDups<T(!new)>(s: seq<T>)
    requires forall i, j :: 0 <= i < j < |s| ==> s[i] != s[j]
    ensures NoDups(s)
  {
    if s != [] {
      assert forall i, j :: 0 <= i < j < |s[1..]| ==> s[1..][i] == s[i + 1] && s[1..][j] == s[j + 1];
      DistinctElementsNoDups(s[1..]);
      assert forall j :: 0 <= j < |s[1..]| ==> s[1..][j] == s[j + 1];
      NoDupsCons(s[0], s[1..]);
      assert [s[0]] + s[1..] == s;
    }
  }

  /** Two sequences holding the same multiset hold the same values. */
  lemma SameMembers<T>(a: seq<T>, b: seq<T>)
    requires multiset(a) == multiset(b)
    ensures forall x :: x in a <==> x in b
  {
    forall x ensures x in a <==> x in b {
      assert x in a <==> x in multiset(a);
      assert x in b <==> x in multiset(b);
    }
  }

  lemma NoDupsIndex<T(!new)>(s: seq<T>, i: nat, j: nat)
    requires NoDups(s) && i < j < |s|
    ensures s[i] != s[j]
  {
    assert s == s[..j] + s[j..];
    assert multiset(s) == multiset(s[..j]) + multiset(s[j..]);
    assert s[i] == s[..j][i];
    assert s[j] == s[j..][0];
    assert multiset(s[..j])[s[i]] >= 1;
    assert multiset(s[j..])[s[j]] >= 1;
    assert multiset(s)[s[i]] == multiset(s[..j])[s[i]] + multiset(s[j..])[s[i]];
  }

  /** The values of s, each once, in order of first appearance. */
  function Distinct<T(==,!new)>(s: seq<T>): (r: seq<T>)
    ensures NoDups(r)
    ensures forall x :: x in r <==> x in s
  {
    if s == [] then []
    else
      var init := s[..|s| - 1];
      var last := s[|s| - 1];
      var d := Distinct(init);
      assert s == init + [last];
      if last in d then d
      else
        assert multiset(d + [last]) == multiset(d) + multiset{last};
        d + [last]
  }

  /** The number of distinct values (Series.nunique). */
  function NUnique<T(==)>(s: seq<T>): nat
  {
    |set x | x in s|
  }

  /** There are no more distinct values than elements. */
  lemma {:induction false} NUniqueAtMost<T>(s: seq<T>)
    ensures NUnique(s) <= |s|
  {
    if s != [] {
      NUniqueAtMost(s[1..]);
      var rest := set x | x in s[1..];
      assert (set x | x in s) == rest + {s[0]};
      if s[0] in rest {
        assert rest + {s[0]} == rest;
      } else {
        assert |rest + {s[0]}| == |rest| + 1;
      }
    }
  }

  /** A sequence without duplicates has as many distinct values as elements. */
  lemma {:induction false} NUniqueOfNoDups<T(!new)>(s: seq<T>)
    requires NoDups(s)
    ensures NUnique(s) == |s|
  {
    if s != [] {
      NoDupsTail(s);
      NUniqueOfNoDups(s[1..]);
      assert (set x | x in s) == {s[0]} + (set x | x in s[1..]);
      assert s[0] !in (set x | x in s[1..]);
    }
  }

  // ---------------------------------------------------------------------------
  // Sorting by an integer column

  predicate SortedBy<T>(s: seq<T>, key: T -> int)
  {
    forall i, j :: 0 <= i < j < |s| ==> key(s[i]) <= key(s[j])
  }

  function Insert<T>(x: T, s: seq<T>, key: T -> int): (r: seq<T>)
    requires SortedBy(s, key)
    ensures SortedBy(r, key)
    ensures multiset(r) == multiset(s) + multiset{x}
    ensures forall k :: 0 <= k < |r| ==> r[k] == x || r[k] in s
  {
    if s == [] || key(x) <= key(s[0]) then [x] + s
    else
      var rest := Insert(x, s[1..], key);
      InsertFront(s[0], rest, key, x, s[1..]);
      assert s == [s[0]] + s[1..];
      [s[0]] + rest
  }

  lemma InsertFront<T>(y: T, rest: seq<T>, key: T -> int, x: T, tail: seq<T>)
    requires SortedBy(rest, key) && SortedBy([y] + tail, key) && key(y) < key(x)
    requires forall k :: 0 <= k < |rest| ==> rest[k] == x || rest[k] in tail
    ensures SortedBy([y] + rest, key)
  {
    forall k | 0 <= k < |rest| ensures key(y) <= key(rest[k]) {
      if rest[k] != x {
        var m :| 0 <= m < |tail| && tail[m] == rest[k];
        var yt := [y] + tail;
        assert yt[0] == y && yt[m + 1] == tail[m];
        assert key(yt[0]) <= key(yt[m + 1]);
      }
    }
  }

  /** The rows of s ordered by key, ascending; rows with equal keys keep their
      relative order. */
  function SortBy<T>(s: seq<T>, key: T -> int): (r: seq<T>)
    ensures SortedBy(r, key)
    ensures multiset(r) == multiset(s)
    ensures |r| == |s|
  {
    if s == [] then []
    else
      assert s == [s[0]] + s[1..];
      Insert(s[0], SortBy(s[1..], key), key)
  }

  lemma StrictlyIncreasing(r: seq<int>)
    requires SortedBy(r, (k: int) => k) && NoDups(r)
    ensures forall i, j :: 0 <= i < j < |r| ==> r[i] < r[j]
  {
    forall i, j | 0 <= i < j < |r| ensures r[i] < r[j] {
      NoDupsIndex(r, i, j);
    }
  }

  /** The group keys that groupby gives an integer column: every value that
      occurs, once, in ascending order. */
  function GroupKeys(keys: seq<int>): (r: seq<int>)
    ensures forall i, j :: 0 <= i < j < |r| ==> r[i] < r[j]
    ensures forall k :: k in r <==> k in keys
    ensures NoDups(r)
  {
    var d := Distinct(keys);
    var r := SortBy(d, (k: int) => k);
    assert forall x :: multiset(r)[x] == multiset(d)[x];
    StrictlyIncreasing(r);
    assert forall k :: k in r <==> k in multiset(d);
    r
  }

  // ---------------------------------------------------------------------------
  // Selecting a column of the rows that satisfy a condition
  // (`df[mask][col]`, SQL `SELECT col ... WHERE`)

  /** The rows that satisfy p and whose column f holds y. */
  function Yields<T, U(==)>(p: T -> bool, f: T -> U, y: U): T -> bool
  {
    (x: T) => p(x) && f(x) == y
  }

  /** Column f of the rows of s that satisfy p, in row order: one entry per
      selected row, so a value occurs as often as there are selected rows
      holding it. */
  function SelectWhere<T(!new), U(==,!new)>(s: seq<T>, p: T -> bool, f: T -> U): (r: seq<U>)
    ensures |r| == Count(s, p)
    ensures forall y :: y in r <==> exists i :: 0 <= i < |s| && p(s[i]) && y == f(s[i])
    ensures forall y :: multiset(r)[y] == Count(s, Yields(p, f, y))
  {
    SelectFacts(s, p, f);
    MapSeq(Filter(s, p), f)
  }

  lemma SelectFacts<T(!new), U(!new)>(s: seq<T>, p: T -> bool, f: T -> U)
    ensures forall y :: y in MapSeq(Filter(s, p), f) <==> exists i :: 0 <= i < |s| && p(s[i]) && y == f(s[i])
    ensures forall y :: multiset(MapSeq(Filter(s, p), f))[y] == Count(s, Yields(p, f, y))
  {
    forall y ensures multiset(MapSeq(Filter(s, p), f))[y] == Count(s, Yields(p, f, y)) {
      SelectCount(s, p, f, y);
    }
    forall y ensures y in MapSeq(Filter(s, p), f) <==> exists i :: 0 <= i < |s| && p(s[i]) && y == f(s[i]) {
      assert y in MapSeq(Filter(s, p), f) <==> y in multiset(MapSeq(Filter(s, p), f));
      assert (exists i :: 0 <= i < |s| && p(s[i]) && y == f(s[i])) <==> exists i :: 0 <= i < |s| && Yields(p, f, y)(s[i]);
    }
  }

  lemma {:induction false} SelectCount<T(!new), U>(s: seq<T>, p: T -> bool, f: T -> U, y: U)
    ensures multiset(MapSeq(Filter(s, p), f))[y] == Count(s, Yields(p, f, y))
  {
    if s != [] {
      var head: seq<T> := if p(s[0]) then [s[0]] else [];
      var tail := Filter(s[1..], p);
      assert Filter(s, p) == head + tail;
      MapSeqAppend(head, tail, f);
      SelectCount(s[1..], p, f, y);
      assert multiset(MapSeq(head + tail, f)) == multiset(MapSeq(head, f)) + multiset(MapSeq(tail, f));
      assert multiset(MapSeq(head, f))[y] == if p(s[0]) && f(s[0]) == y then 1 else 0;
    }
  }

  // ---------------------------------------------------------------------------
  // Inner join (pandas.merge(left, right, how="inner", on=...))

  /** The right rows whose key is k. */
  function KeyIs<R, K(==)>(rk: R -> K, k: K): R -> bool
  {
    (y: R) => rk(y) == k
  }

  /** The number of (left row, right row) pairs whose keys are equal. */
  function PairCount<L, R, K(==)>(left: seq<L>, right: seq<R>, lk: L -> K, rk: R -> K): nat
  {
    if left == [] then 0 else Count(right, KeyIs(rk, lk(left[0]))) + PairCount(left[1..], right, lk, rk)
  }

  /** The right rows combined with the left row l. */
  function CombineWith<L, R, O>(combine: (L, R) -> O, l: L): R -> O
  {
    (y: R) => combine(l, y)
  }

  function MapSeq<A, B>(s: seq<A>, f: A -> B): (r: seq<B>)
    ensures |r| == |s| && forall i :: 0 <= i < |s| ==> r[i] == f(s[i])
  {
    seq(|s|, i requires 0 <= i < |s| => f(s[i]))
  }

  /** The rows of right whose key equals l's key, each combined with l, in right's order. */
  function MatchRow<L, R, K(==), O(!new)>(l: L, right: seq<R>, lk: L -> K, rk: R -> K, combine: (L, R) -> O): (r: seq<O>)
    ensures |r| == Count(right, KeyIs(rk, lk(l)))
    ensures forall o :: o in r <==>
      exists j :: 0 <= j < |right| && lk(l) == rk(right[j]) && o == combine(l, right[j])
  {
    if right == [] then []
    else
      var rest := MatchRow(l, right[1..], lk, rk, combine);
      assert forall j :: 1 <= j < |right| ==> right[j] == right[1..][j - 1];
      (if lk(l) == rk(right[0]) then [combine(l, right[0])] else []) + rest
  }

  /** Every pair of a left row and a right row with equal keys, combined into one
      output row: left-major, matches in right's order within each left row. */
  function InnerJoin<L, R, K(==), O(!new)>(left: seq<L>, right: seq<R>, lk: L -> K, rk: R -> K, combine: (L, R) -> O): (r: seq<O>)
    ensures |r| == PairCount(left, right, lk, rk)
    ensures forall o :: o in r <==>
      exists i, j :: 0 <= i < |left| && 0 <= j < |right| && lk(left[i]) == rk(right[j]) && o == combine(left[i], right[j])
  {
    if left == [] then []
    else
      var rest := InnerJoin(left[1..], right, lk, rk, combine);
      assert forall i :: 1 <= i < |left| ==> left[i] == left[1..][i - 1];
      MatchRow(left[0], right, lk, rk, combine) + rest
  }

  /** One left row's output: each right row with its key, once and in right's
      order, combined with it. */
  lemma {:induction false} MatchRowIsFilter<L, R(!new), K, O(!new)>(l: L, right: seq<R>, lk: L -> K, rk: R -> K, combine: (L, R) -> O)
    ensures MatchRow(l, right, lk, rk, combine) == MapSeq(Filter(right, KeyIs(rk, lk(l))), CombineWith(combine, l))
  {
    if right != [] {
      var p := KeyIs(rk, lk(l));
      var f := CombineWith(combine, l);
      var head: seq<R> := if p(right[0]) then [right[0]] else [];
      var tail := Filter(right[1..], p);
      assert Filter(right, p) == head + tail;
      MatchRowIsFilter(l, right[1..], lk, rk, combine);
      assert MatchRow(l, right[1..], lk, rk, combine) == MapSeq(tail, f);
      MapSeqAppend(head, tail, f);
      assert MapSeq(head, f) == if lk(l) == rk(right[0]) then [combine(l, right[0])] else [];
    }
  }

  lemma MapSeqAppend<A, B>(a: seq<A>, b: seq<A>, f: A -> B)
    ensures MapSeq(a + b, f) == MapSeq(a, f) + MapSeq(b, f)
  {
  }

  /** The join is left-major: joining a + b is joining a, then joining b. */
  lemma {:induction false} InnerJoinAppend<L, R, K, O(!new)>(a: seq<L>, b: seq<L>, right: seq<R>, lk: L -> K, rk: R -> K, combine: (L, R) -> O)
    ensures InnerJoin(a + b, right, lk, rk, combine) == InnerJoin(a, right, lk, rk, combine) + InnerJoin(b, right, lk, rk, combine)
  {
    if a == [] {
      assert a + b == b;
    } else {
      assert (a + b)[0] == a[0];
      assert (a + b)[1..] == a[1..] + b;
      InnerJoinAppend(a[1..], b, right, lk, rk, combine);
    }
  }

  /** A single left row joins to its matching right rows. */
  lemma InnerJoinOfOne<L, R, K, O(!new)>(l: L, right: seq<R>, lk: L -> K, rk: R -> K, combine: (L, R) -> O)
    ensures InnerJoin([l], right, lk, rk, combine) == MatchRow(l, right, lk, rk, combine)
  {
    assert [l][1..] == [];
  }

  // ---------------------------------------------------------------------------
  // The interquartile-range rule

  /** Q1 - 1.5 IQR and Q3 + 1.5 IQR for the quartiles q1 and q3: an interval
      centred on the quartiles' midpoint, four IQR wide, that contains both
      quartiles when q1 <= q3. */
  function IqrBounds(q1: real, q3: real): (b: (real, real))
    ensures b.0 + b.1 == q1 + q3
    ensures b.1 - b.0 == 4.0 * (q3 - q1)
    ensures q1 <= q3 ==> b.0 <= q1 <= q3 <= b.1
  {
    var iqr := q3 - q1;
    (q1 - 1.5 * iqr, q3 + 1.5 * iqr)
  }

  /** x lies strictly below lower or strictly above upper. */
  predicate Outside(x: real, lower: real, upper: real)
  {
    x < lower || x > upper
  }
}
