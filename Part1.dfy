/** part1.py: the number of distinct users of the daily activity table and
    each user's total distance (groupby("Id")["TotalDistance"].sum()). */
module Part1 {
  import opened Frames

  /** The two columns of dailyactivity.csv that part1.py reads. */
  datatype DailyDistance = DailyDistance(id: int, totalDistance: real)

  /** One row of the per-user table: a user and the sum of their distances. */
  datatype UserDistance = UserDistance(id: int, totalDistance: real)

  function RowId(x: DailyDistance): int { x.id }
  function RowDistance(x: DailyDistance): real { x.totalDistance }
  function UserTotal(u: UserDistance): real { u.totalDistance }

  /** The Id column. */
  function Ids(df: seq<DailyDistance>): seq<int> { MapSeq(df, RowId) }

  /** count_unique_users, lines 13-14: `df["Id"].nunique()`. No more users than
      rows, and none only for an empty table. */
  function CountUniqueUsers(df: seq<DailyDistance>): (n: nat)
    ensures n == |set i | 0 <= i < |df| :: df[i].id|
    ensures n <= |df|
    ensures n == 0 <==> df == []
  {
    NUniqueAtMost(Ids(df));
    var users := set x | x in Ids(df);
    assert users == set i | 0 <= i < |df| :: df[i].id by {
      forall x | x in users ensures x in set i | 0 <= i < |df| :: df[i].id {
        var i :| 0 <= i < |df| && Ids(df)[i] == x;
      }
      forall i | 0 <= i < |df| ensures df[i].id in users {
        assert Ids(df)[i] == df[i].id;
      }
    }
    assert NUnique(Ids(df)) == |users|;
    assert df != [] ==> Ids(df)[0] in users && |users| != 0;
    assert df == [] ==> users == {};
    NUnique(Ids(df))
  }

  /** The group total of each key, in the order of keys. */
  function Totals(df: seq<DailyDistance>, keys: seq<int>): (r: seq<UserDistance>)
    ensures |r| == |keys|
    ensures forall i :: 0 <= i < |keys| ==> r[i] == UserDistance(keys[i], SumFor(df, RowId, RowDistance, keys[i]))
  {
    if keys == [] then []
    else [UserDistance(keys[0], SumFor(df, RowId, RowDistance, keys[0]))] + Totals(df, keys[1..])
  }

  function UserId(u: UserDistance): int { u.id }
  function UserIds(r: seq<UserDistance>): seq<int> { MapSeq(r, UserId) }

  /** compute_total_distance, lines 16-17: one row per distinct Id, in
      ascending Id order, with the sum of that user's TotalDistance. */
  function ComputeTotalDistance(df: seq<DailyDistance>): (r: seq<UserDistance>)
    ensures forall i, j :: 0 <= i < j < |r| ==> r[i].id < r[j].id
    ensures forall k :: k in UserIds(r) <==> k in Ids(df)
    ensures forall i :: 0 <= i < |r| ==> r[i].totalDistance == SumFor(df, RowId, RowDistance, r[i].id)
  {
    var keys := GroupKeys(Ids(df));
    var r := Totals(df, keys);
    assert UserIds(r) == keys;
    r
  }

  lemma {:induction false} SumOfTotals(df: seq<DailyDistance>, keys: seq<int>)
    ensures SumAll(Totals(df, keys), UserTotal) == SumOverKeys(df, RowId, RowDistance, keys)
  {
    if keys != [] {
      SumOfTotals(df, keys[1..]);
      assert Totals(df, keys)[1..] == Totals(df, keys[1..]);
    }
  }

  /** The per-user totals add up to the distance of the whole table: each
      row is counted for exactly one user. */
  lemma TotalDistanceIsConserved(df: seq<DailyDistance>)
    ensures SumAll(ComputeTotalDistance(df), UserTotal) == SumAll(df, RowDistance)
  {
    var keys := GroupKeys(Ids(df));
    SumOfTotals(df, keys);
    SumOverKeysIsSumIn(df, RowId, RowDistance, keys);
    assert forall i :: 0 <= i < |df| ==> RowId(df[i]) in keys by {
      forall i | 0 <= i < |df| ensures RowId(df[i]) in keys {
        assert Ids(df)[i] == df[i].id;
      }
    }
    SumInCoversAll(df, RowId, RowDistance, keys);
  }

  /** The per-user table has as many rows as there are unique users. */
  lemma TotalDistanceHasOneRowPerUser(df: seq<DailyDistance>)
    ensures |ComputeTotalDistance(df)| == CountUniqueUsers(df)
  {
    var keys := GroupKeys(Ids(df));
    NUniqueOfNoDups(keys);
    assert (set x | x in keys) == (set x | x in Ids(df));
  }
}
