/** The parts of Python's `min`, `max` and `statistics` module that
    `get_stats` uses, over exact reals: the mean and the population variance
    (the square of `statistics.pstdev`). */
module Statistics {

  function Sum(xs: seq<real>): real
    decreases |xs|
  {
    if |xs| == 0 then 0.0 else xs[0] + Sum(xs[1..])
  }

  /** `min(xs)`. */
  function MinOf(xs: seq<real>): (m: real)
    requires |xs| > 0
    ensures m in xs
    ensures forall x | x in xs :: m <= x
    decreases |xs|
  {
    if |xs| == 1 then xs[0]
    else
      var m := MinOf(xs[1..]);
      assert forall x | x in xs :: x == xs[0] || x in xs[1..];
      if xs[0] <= m then xs[0] else m
  }

  /** `max(xs)`. */
  function MaxOf(xs: seq<real>): (m: real)
    requires |xs| > 0
    ensures m in xs
    ensures forall x | x in xs :: x <= m
    decreases |xs|
  {
    if |xs| == 1 then xs[0]
    else
      var m := MaxOf(xs[1..]);
      assert forall x | x in xs :: x == xs[0] || x in xs[1..];
      if xs[0] >= m then xs[0] else m
  }

  /** `statistics.mean(xs)`. */
  function Mean(xs: seq<real>): (m: real)
    requires |xs| > 0
    ensures |xs| as real * m == Sum(xs)
  {
    Sum(xs) / |xs| as real
  }

  /** Sum of squared deviations from `m`. */
  function SquaredDeviations(xs: seq<real>, m: real): real
    decreases |xs|
  {
    if |xs| == 0 then 0.0 else (xs[0] - m) * (xs[0] - m) + SquaredDeviations(xs[1..], m)
  }

  /** `statistics.pstdev(xs) ** 2`: the population variance. */
  function Variance(xs: seq<real>): (v: real)
    requires |xs| > 0
    ensures |xs| as real * v == SquaredDeviations(xs, Mean(xs))
  {
    SquaredDeviations(xs, Mean(xs)) / |xs| as real
  }

  /** Values no smaller than `lo` sum to at least `n * lo`. */
  lemma {:induction false} SumAtLeast(xs: seq<real>, lo: real)
    requires forall x | x in xs :: lo <= x
    ensures |xs| as real * lo <= Sum(xs)
    decreases |xs|
  {
    if |xs| > 0 {
      assert forall x | x in xs[1..] :: x in xs;
      SumAtLeast(xs[1..], lo);
      assert xs[0] in xs;
      assert |xs| as real * lo == |xs[1..]| as real * lo + lo;
    }
  }

  /** Values no larger than `hi` sum to at most `n * hi`. */
  lemma {:induction false} SumAtMost(xs: seq<real>, hi: real)
    requires forall x | x in xs :: x <= hi
    ensures Sum(xs) <= |xs| as real * hi
    decreases |xs|
  {
    if |xs| > 0 {
      assert forall x | x in xs[1..] :: x in xs;
      SumAtMost(xs[1..], hi);
      assert xs[0] in xs;
      assert |xs| as real * hi == |xs[1..]| as real * hi + hi;
    }
  }

  lemma {:induction false} SquaredDeviationsNonNegative(xs: seq<real>, m: real)
    ensures SquaredDeviations(xs, m) >= 0.0
    decreases |xs|
  {
    if |xs| > 0 {
      var d := xs[0] - m;
      assert d * d >= 0.0;
      SquaredDeviationsNonNegative(xs[1..], m);
    }
  }

  /** Dividing a lower bound on a total by the count. */
  lemma DivideLower(a: real, b: real, n: real)
    requires n > 0.0 && n * a <= b
    ensures a <= b / n
  {
    assert (b / n) * n == b;
  }

  /** Dividing an upper bound on a total by the count. */
  lemma DivideUpper(a: real, b: real, n: real)
    requires n > 0.0 && b <= n * a
    ensures b / n <= a
  {
    assert (b / n) * n == b;
  }

  lemma MeanAtLeastMin(xs: seq<real>)
    requires |xs| > 0
    ensures MinOf(xs) <= Mean(xs)
  {
    var n, lo, sum := |xs| as real, MinOf(xs), Sum(xs);
    assert lo <= sum / n by {
      SumAtLeast(xs, lo);
      DivideLower(lo, sum, n);
    }
  }

  lemma MeanAtMostMax(xs: seq<real>)
    requires |xs| > 0
    ensures Mean(xs) <= MaxOf(xs)
  {
    var n, hi, sum := |xs| as real, MaxOf(xs), Sum(xs);
    assert sum / n <= hi by {
      SumAtMost(xs, hi);
      DivideUpper(hi, sum, n);
    }
  }

  /** The mean lies between the minimum and the maximum. */
  lemma MeanBetweenExtremes(xs: seq<real>)
    requires |xs| > 0
    ensures MinOf(xs) <= Mean(xs) <= MaxOf(xs)
  {
    MeanAtLeastMin(xs);
    MeanAtMostMax(xs);
  }

  /** The variance is never negative. */
  lemma VarianceNonNegative(xs: seq<real>)
    requires |xs| > 0
    ensures Variance(xs) >= 0.0
  {
    var sd := SquaredDeviations(xs, Mean(xs));
    SquaredDeviationsNonNegative(xs, Mean(xs));
    DivideLower(0.0, sd, |xs| as real);
  }
}
