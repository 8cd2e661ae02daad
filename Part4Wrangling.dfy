/** scripts/part4_wrangling.py: the cleaning steps run on the database copy.
    A table fetched from the database is a list of column names and rows of
    cells; a missing value is Null. fill_missing_weight and remove_fat_column
    change the fetched table in place before saving it back;
    remove_minute_sleep_outliers rebinds its table to the rows it keeps. The
    quartiles and the median that pandas computes are parameters here. */
module Part4Wrangling {
  import opened Frames

  datatype Cell = Null | Num(x: real) | Text(s: string)

  /** Every row has one cell per column. */
  predicate Rectangular(columns: seq<string>, rows: seq<seq<Cell>>)
  {
    forall i :: 0 <= i < |rows| ==> |rows[i]| == |columns|
  }

  /** The position of the column called name. */
  function ColumnIndex(columns: seq<string>, name: string): (r: Option<nat>)
    ensures r.Some? <==> name in columns
    ensures r.Some? ==> r.value < |columns| && columns[r.value] == name && name !in columns[..r.value]
  {
    if name in columns then Some(IndexOfName(columns, name)) else None
  }

  function IndexOfName(columns: seq<string>, name: string): (i: nat)
    requires name in columns
    ensures i < |columns| && columns[i] == name && name !in columns[..i]
  {
    if columns[0] == name then 0
    else
      var i := IndexOfName(columns[1..], name);
      assert columns[..i + 1] == [columns[0]] + columns[1..][..i];
      i + 1
  }

  /** Database tables name each column once. */
  predicate DistinctNames(columns: seq<string>)
  {
    forall i, j :: 0 <= i < j < |columns| ==> columns[i] != columns[j]
  }

  // ---------------------------------------------------------------------------
  // detect_outliers and remove_minute_sleep_outliers

  /** Lines 45-46 on one cell: a number outside [lower, upper]. A missing
      value compares false both ways and is never an outlier. */
  predicate IsOutlier(c: Cell, lower: real, upper: real)
  {
    c.Num? && Outside(c.x, lower, upper)
  }

  /** A row whose cell at k is an outlier. */
  function OutlierRow(k: nat, lower: real, upper: real): seq<Cell> -> bool
  {
    (row: seq<Cell>) => |row| > k && IsOutlier(row[k], lower, upper)
  }

  /** A row whose cell at k is not an outlier. */
  function InlierRow(k: nat, lower: real, upper: real): seq<Cell> -> bool
  {
    (row: seq<Cell>) => !(|row| > k && IsOutlier(row[k], lower, upper))
  }

  /** The outlier rows with their index labels, in order; the rows are
      labelled from `from` on (a fetched table has the labels 0, 1, ...). */
  function OutliersFrom(rows: seq<seq<Cell>>, k: nat, lower: real, upper: real, from: nat): (r: seq<(nat, seq<Cell>)>)
    requires forall i :: 0 <= i < |rows| ==> k < |rows[i]|
    ensures |r| == Count(rows, OutlierRow(k, lower, upper))
    ensures forall p :: p in r <==>
      from <= p.0 < from + |rows| && p.1 == rows[p.0 - from] && IsOutlier(p.1[k], lower, upper)
  {
    if rows == [] then []
    else
      var rest := OutliersFrom(rows[1..], k, lower, upper, from + 1);
      assert forall i :: 1 <= i < |rows| ==> rows[i] == rows[1..][i - 1];
      (if IsOutlier(rows[0][k], lower, upper) then [(from, rows[0])] else []) + rest
  }

  /** detect_outliers(df, column), lines 40-47, with the quartiles of the column
      given: exactly the rows whose value lies below Q1 - 1.5 IQR or above
      Q3 + 1.5 IQR, with their index labels. */
  function DetectOutliers(columns: seq<string>, rows: seq<seq<Cell>>, column: string, q1: real, q3: real)
    : (r: seq<(nat, seq<Cell>)>)
    requires Rectangular(columns, rows) && column in columns
    ensures var k := ColumnIndex(columns, column).value;
      var (lower, upper) := IqrBounds(q1, q3);
      forall i :: 0 <= i < |rows| ==> ((i, rows[i]) in r <==> IsOutlier(rows[i][k], lower, upper))
    ensures forall p :: p in r ==> p.0 < |rows| && p.1 == rows[p.0]
  {
    var k := ColumnIndex(columns, column).value;
    var (lower, upper) := IqrBounds(q1, q3);
    OutliersFrom(rows, k, lower, upper, 0)
  }

  /** The rows whose label (from `from` on) is not listed. */
  function KeepUnlisted(rows: seq<seq<Cell>>, listed: set<nat>, from: nat): (r: seq<seq<Cell>>)
    ensures |r| <= |rows|
  {
    if rows == [] then []
    else (if from in listed then [] else [rows[0]]) + KeepUnlisted(rows[1..], listed, from + 1)
  }

  lemma {:induction false} KeepUnlistedIsFilter(rows: seq<seq<Cell>>, listed: set<nat>, from: nat, keep: seq<Cell> -> bool)
    requires forall i :: 0 <= i < |rows| ==> (from + i in listed <==> !keep(rows[i]))
    ensures KeepUnlisted(rows, listed, from) == Filter(rows, keep)
  {
    if rows != [] {
      assert forall i :: 1 <= i < |rows| ==> rows[1..][i - 1] == rows[i];
      KeepUnlistedIsFilter(rows[1..], listed, from + 1, keep);
    }
  }

  /** The index labels of the rows detect_outliers returns. */
  function Labels(outliers: seq<(nat, seq<Cell>)>): set<nat>
  {
    set p | p in outliers :: p.0
  }

  lemma LabelsOfOutliers(columns: seq<string>, rows: seq<seq<Cell>>, column: string, q1: real, q3: real)
    requires Rectangular(columns, rows) && column in columns
    ensures var k := ColumnIndex(columns, column).value;
      var (lower, upper) := IqrBounds(q1, q3);
      forall i :: 0 <= i < |rows| ==>
        (i in Labels(DetectOutliers(columns, rows, column, q1, q3)) <==> IsOutlier(rows[i][k], lower, upper))
  {
    var outliers := DetectOutliers(columns, rows, column, q1, q3);
    forall i | 0 <= i < |rows| && i in Labels(outliers) ensures (i, rows[i]) in outliers {
      var p :| p in outliers && p.0 == i;
    }
  }

  /** remove_minute_sleep_outliers, lines 95-104: without a "value" column the
      table goes back unchanged and no count is reported; otherwise the rows
      whose labels detect_outliers lists are dropped and the reported count
      is how many rows went. */
  function RemoveMinuteSleepOutliers(columns: seq<string>, rows: seq<seq<Cell>>, q1: real, q3: real)
    : (r: (seq<seq<Cell>>, Option<nat>))
    requires Rectangular(columns, rows)
    ensures "value" !in columns ==> r == (rows, None)
    ensures "value" in columns ==> |r.0| <= |rows| && r.1 == Some(|rows| - |r.0|)
  {
    if "value" in columns then
      var outliers := DetectOutliers(columns, rows, "value", q1, q3);
      var initialCount := |rows|;
      var kept := KeepUnlisted(rows, Labels(outliers), 0);
      var removed: nat := initialCount - |kept|;
      (kept, Some(removed))
    else (rows, None)
  }

  /** The rows remove_minute_sleep_outliers keeps are exactly the rows whose
      value is not an outlier, in their order. */
  lemma RemoveMinuteSleepOutliersKeepsInliers(columns: seq<string>, rows: seq<seq<Cell>>, q1: real, q3: real)
    requires Rectangular(columns, rows) && "value" in columns
    ensures var k := ColumnIndex(columns, "value").value;
      var b := IqrBounds(q1, q3);
      RemoveMinuteSleepOutliers(columns, rows, q1, q3).0 == Filter(rows, InlierRow(k, b.0, b.1))
  {
    var k := ColumnIndex(columns, "value").value;
    var b := IqrBounds(q1, q3);
    var outliers := DetectOutliers(columns, rows, "value", q1, q3);
    LabelsOfOutliers(columns, rows, "value", q1, q3);
    KeepUnlistedIsFilter(rows, Labels(outliers), 0, InlierRow(k, b.0, b.1));
  }

  /** The count removed_outliers reports is the number of rows detect_outliers
      finds. */
  lemma RemovedAreTheOutliers(columns: seq<string>, rows: seq<seq<Cell>>, q1: real, q3: real)
    requires Rectangular(columns, rows) && "value" in columns
    ensures RemoveMinuteSleepOutliers(columns, rows, q1, q3).1 == Some(|DetectOutliers(columns, rows, "value", q1, q3)|)
  {
    var k := ColumnIndex(columns, "value").value;
    var (lower, upper) := IqrBounds(q1, q3);
    RemoveMinuteSleepOutliersKeepsInliers(columns, rows, q1, q3);
    CountComplement(rows, OutlierRow(k, lower, upper), InlierRow(k, lower, upper));
  }

  lemma {:induction false} CountComplement<T>(s: seq<T>, p: T -> bool, q: T -> bool)
    requires forall x :: q(x) == !p(x)
    ensures Count(s, p) + Count(s, q) == |s|
  {
    if s != [] {
      CountComplement(s[1..], p, q);
    }
  }

  // ---------------------------------------------------------------------------
  // The fetched table, changed in place

  /** fillna on one cell: a missing value becomes v; a NaN median (None)
      leaves it missing. */
  function FillCell(c: Cell, v: Option<real>): Cell
  {
    if c.Null? && v.Some? then Num(v.value) else c
  }

  /** The rows after `df[column].fillna(v)` for the column at k. */
  function FilledRows(rows: seq<seq<Cell>>, k: nat, v: Option<real>): (r: seq<seq<Cell>>)
    requires forall i :: 0 <= i < |rows| ==> k < |rows[i]|
    ensures |r| == |rows|
    ensures forall i :: 0 <= i < |rows| ==> |r[i]| == |rows[i]|
    ensures forall i, j :: 0 <= i < |rows| && 0 <= j < |rows[i]| && j != k ==> r[i][j] == rows[i][j]
    ensures forall i :: 0 <= i < |rows| ==> !rows[i][k].Null? ==> r[i][k] == rows[i][k]
    ensures forall i :: 0 <= i < |rows| ==> rows[i][k].Null? && v.Some? ==> r[i][k] == Num(v.value)
    ensures v.None? ==> r == rows
  {
    var r := seq(|rows|, i requires 0 <= i < |rows| => rows[i][k := FillCell(rows[i][k], v)]);
    assert v.None? ==> forall i :: 0 <= i < |rows| ==> r[i] == rows[i];
    r
  }

  /** Filling leaves nothing missing in the column unless the median itself is
      NaN, and filling twice changes nothing more. */
  lemma FilledColumnComplete(rows: seq<seq<Cell>>, k: nat, v: Option<real>)
    requires forall i :: 0 <= i < |rows| ==> k < |rows[i]|
    ensures v.Some? ==> forall i :: 0 <= i < |rows| ==> !FilledRows(rows, k, v)[i][k].Null?
    ensures FilledRows(FilledRows(rows, k, v), k, v) == FilledRows(rows, k, v)
  {
    var once := FilledRows(rows, k, v);
    assert forall i :: 0 <= i < |rows| ==> once[i][k := FillCell(once[i][k], v)] == once[i];
  }

  /** The rows after dropping the column at k. */
  function DroppedRows(rows: seq<seq<Cell>>, k: nat): (r: seq<seq<Cell>>)
    requires forall i :: 0 <= i < |rows| ==> k < |rows[i]|
    ensures |r| == |rows|
    ensures forall i :: 0 <= i < |rows| ==>
      && |r[i]| == |rows[i]| - 1
      && (forall j :: 0 <= j < k ==> r[i][j] == rows[i][j])
      && (forall j :: k <= j < |r[i]| ==> r[i][j] == rows[i][j + 1])
  {
    seq(|rows|, i requires 0 <= i < |rows| => rows[i][..k] + rows[i][k + 1..])
  }

  class Table {
    var columns: seq<string>
    var rows: seq<seq<Cell>>

    ghost predicate Valid()
      reads this
    {
      DistinctNames(columns) && Rectangular(columns, rows)
    }

    constructor (columns: seq<string>, rows: seq<seq<Cell>>)
      requires DistinctNames(columns) && Rectangular(columns, rows)
      ensures Valid() && this.columns == columns && this.rows == rows
    {
      this.columns := columns;
      this.rows := rows;
    }

    /** `df[columns[k]].fillna(v, inplace=True)`. */
    method FillNa(k: nat, v: Option<real>)
      requires Valid() && k < |columns|
      modifies this
      ensures Valid()
      ensures columns == old(columns) && rows == FilledRows(old(rows), k, v)
    {
      rows := FilledRows(rows, k, v);
    }

    /** `df.drop(columns=[columns[k]], inplace=True)`. */
    method DropColumn(k: nat)
      requires Valid() && k < |columns|
      modifies this
      ensures Valid()
      ensures columns == old(columns[..k] + columns[k + 1..]) && rows == DroppedRows(old(rows), k)
    {
      rows := DroppedRows(rows, k);
      columns := columns[..k] + columns[k + 1..];
      forall i, j | 0 <= i < j < |columns| ensures columns[i] != columns[j] {
        var oi := if i < k then i else i + 1;
        var oj := if j < k then j else j + 1;
        assert columns[i] == old(columns)[oi] && columns[j] == old(columns)[oj];
      }
    }
  }

  /** fill_missing_weight, lines 74-76, on the fetched weight_log table with
      the column's median given (None when the median is NaN): with a WeightKg
      column its missing values become the median and nothing else changes;
      without one the table stays as it was. */
  method FillMissingWeight(df: Table, median: Option<real>)
    requires df.Valid()
    modifies df
    ensures df.Valid() && df.columns == old(df.columns)
    ensures df.rows == match ColumnIndex(old(df.columns), "WeightKg")
      case Some(k) => FilledRows(old(df.rows), k, median)
      case None => old(df.rows)
  {
    var k := ColumnIndex(df.columns, "WeightKg");
    if k.Some? {
      df.FillNa(k.value, median);
    }
  }

  /** The column names after dropping name: the others, in their order. */
  function WithoutName(columns: seq<string>, name: string): (r: seq<string>)
    requires DistinctNames(columns)
    ensures name !in r && DistinctNames(r)
    ensures forall c :: c in r <==> c in columns && c != name
    ensures |r| == if name in columns then |columns| - 1 else |columns|
  {
    match ColumnIndex(columns, name)
    case None => columns
    case Some(k) =>
      var r := columns[..k] + columns[k + 1..];
      assert forall i :: 0 <= i < |r| ==> r[i] == columns[if i < k then i else i + 1];
      assert forall c :: c in columns && c != name ==> c in r by {
        forall c | c in columns && c != name ensures c in r {
          var i :| 0 <= i < |columns| && columns[i] == c;
          assert r[if i < k then i else i - 1] == c;
        }
      }
      r
  }

  /** remove_fat_column, lines 85-86, on the fetched weight_log table: the
      columns become the old ones without "Fat", in order, and the rows lose
      that column's cells; without a "Fat" column nothing changes. */
  method RemoveFatColumn(df: Table)
    requires df.Valid()
    modifies df
    ensures df.Valid()
    ensures df.columns == WithoutName(old(df.columns), "Fat")
    ensures df.rows == match ColumnIndex(old(df.columns), "Fat")
      case Some(k) => DroppedRows(old(df.rows), k)
      case None => old(df.rows)
  {
    var k := ColumnIndex(df.columns, "Fat");
    if k.Some? {
      df.DropColumn(k.value);
    }
  }

  // ---------------------------------------------------------------------------
  // check_duplicates: len(df[df.duplicated()])

  /** The rows equal to some earlier row (duplicated(keep="first")); two
      missing values count as equal. */
  function DuplicateCount(rows: seq<seq<Cell>>): (n: nat)
    ensures n <= |rows|
  {
    if rows == [] then 0
    else
      var init := rows[..|rows| - 1];
      DuplicateCount(init) + (if rows[|rows| - 1] in init then 1 else 0)
  }

  /** The duplicate count is the number of rows less the number of distinct rows. */
  lemma {:induction false} DuplicateCountIsRowsLessDistinct(rows: seq<seq<Cell>>)
    ensures DuplicateCount(rows) == |rows| - NUnique(rows)
  {
    if rows != [] {
      var init := rows[..|rows| - 1];
      var last := rows[|rows| - 1];
      DuplicateCountIsRowsLessDistinct(init);
      assert rows == init + [last];
      var before := set x | x in init;
      assert (set x | x in rows) == before + {last};
      if last in init {
        assert before + {last} == before;
        assert NUnique(rows) == NUnique(init);
      } else {
        assert last !in before;
        assert |before + {last}| == |before| + 1;
        assert NUnique(rows) == NUnique(init) + 1;
      }
    } else {
      assert (set x | x in rows) == {};
    }
  }
}
