/** part4.py: the weight_log analysis. The missing weights are filled with
    the median, the weights outside the interquartile fences are counted, and
    the statistic to report is chosen from that count. The median, mean and
    quartiles pandas computes are parameters; a NaN median is None. */
module Part4 {
  import opened Frames

  /** The weight_log frame of the caller; only its WeightKg column is used,
      a missing weight being None. */
  class WeightLog {
    var weightKg: seq<Option<real>>

    constructor (weightKg: seq<Option<real>>)
      ensures this.weightKg == weightKg
    {
      this.weightKg := weightKg;
    }

    /** fill_missing_values, lines 17-19: the caller's WeightKg column is
        replaced by the filled one. */
    method FillMissingValues(median: Option<real>)
      modifies this
      ensures weightKg == FillNa(old(weightKg), median)
    {
      weightKg := FillNa(weightKg, median);
    }
  }

  /** `Series.fillna(median)`: a missing weight becomes the median, every
      other weight stays, and a NaN median fills nothing. */
  function FillNa(weights: seq<Option<real>>, median: Option<real>): (r: seq<Option<real>>)
    ensures |r| == |weights|
    ensures forall i :: 0 <= i < |weights| && weights[i].Some? ==> r[i] == weights[i]
    ensures forall i :: 0 <= i < |weights| && weights[i].None? ==> r[i] == median
  {
    seq(|weights|, i requires 0 <= i < |weights| => if weights[i].Some? then weights[i] else median)
  }

  /** After filling with a real median no weight is missing; filling again
      changes nothing; with a NaN median the column is as it was. */
  lemma FillNaFacts(weights: seq<Option<real>>, median: Option<real>)
    ensures median.Some? ==> forall i :: 0 <= i < |weights| ==> FillNa(weights, median)[i].Some?
    ensures FillNa(FillNa(weights, median), median) == FillNa(weights, median)
    ensures median.None? ==> FillNa(weights, median) == weights
  {
    var once := FillNa(weights, median);
    assert median.None? ==> forall i :: 0 <= i < |weights| ==> once[i] == weights[i];
  }

  /** A weight beyond the fences; a missing one compares false both ways. */
  function OutsideWeight(lower: real, upper: real): Option<real> -> bool
  {
    (w: Option<real>) => w.Some? && Outside(w.value, lower, upper)
  }

  /** detect_outliers, lines 32-44, with the quartiles given: the number of
      weights strictly below Q1 - 1.5 IQR or above Q3 + 1.5 IQR, and the two
      fences. */
  function DetectOutliers(weights: seq<Option<real>>, q1: real, q3: real): (r: (nat, real, real))
    ensures (r.1, r.2) == IqrBounds(q1, q3)
    ensures r.0 <= |weights|
    ensures r.0 == 0 <==> forall i :: 0 <= i < |weights| && weights[i].Some? ==> r.1 <= weights[i].value <= r.2
  {
    var (lower, upper) := IqrBounds(q1, q3);
    var n := Count(weights, OutsideWeight(lower, upper));
    (n, lower, upper)
  }

  /** The outliers counted are the weights beyond the fences, each once. */
  lemma DetectOutliersCountsOutside(weights: seq<Option<real>>, q1: real, q3: real)
    ensures var (n, lower, upper) := DetectOutliers(weights, q1, q3);
      n == |Filter(weights, OutsideWeight(lower, upper))|
      && forall w :: w in Filter(weights, OutsideWeight(lower, upper)) <==>
           w in weights && w.Some? && (w.value < lower || w.value > upper)
  {
  }

  /** Weights that lie between the quartiles are never outliers. */
  lemma {:induction false} QuartileRangeHasNoOutliers(weights: seq<Option<real>>, q1: real, q3: real)
    requires q1 <= q3
    requires forall i :: 0 <= i < |weights| && weights[i].Some? ==> q1 <= weights[i].value <= q3
    ensures DetectOutliers(weights, q1, q3).0 == 0
  {
    var (lower, upper) := IqrBounds(q1, q3);
    assert lower <= q1 && q3 <= upper;
  }

  const MedianText := "median (less affected by outliers)"
  const MeanText := "mean (reasonable choice)"

  /** choose_statistic, lines 47-51. */
  function ChooseStatistic(numOutliers: int): (r: string)
    ensures r == MedianText <==> numOutliers > 0
    ensures r == MeanText <==> numOutliers <= 0
  {
    if numOutliers > 0 then MedianText else MeanText
  }

  /** The median is recommended exactly when some weight lies beyond the
      fences. */
  lemma MedianChosenForOutliers(weights: seq<Option<real>>, q1: real, q3: real)
    ensures var (n, lower, upper) := DetectOutliers(weights, q1, q3);
      ChooseStatistic(n) == MedianText <==>
        exists i :: 0 <= i < |weights| && weights[i].Some? && (weights[i].value < lower || weights[i].value > upper)
  {
  }
}
