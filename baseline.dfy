/**
 * The baseline estimator (`calculate_baseline`): mean and sample standard
 * deviation of one category's daily counts over the trailing window of
 * dates.
 *
 * Arithmetic is exact, over `real`. The square root that
 * `statistics.stdev` takes cannot be defined on Dafny's reals, so it is the
 * parameter `root`; the lemmas about it assume that it returns the
 * non-negative square root of every non-negative argument.
 */
module Baseline {
  import opened Aggregate
  import opened Dates

  /** The (mean, stdev) pair the estimator returns. */
  datatype Stats = Stats(mean: real, stdev: real)

  function Sum(xs: seq<nat>): (s: nat)
  {
    if xs == [] then 0 else xs[0] + Sum(xs[1..])
  }

  /** `statistics.mean`. */
  function Mean(xs: seq<nat>): (m: real)
    requires |xs| > 0
    ensures m >= 0.0
    ensures m * |xs| as real == Sum(xs) as real
  {
    Sum(xs) as real / |xs| as real
  }

  /** The sum of the squared deviations of the samples from `m`. */
  function SquaredDeviations(xs: seq<nat>, m: real): (r: real)
    ensures r >= 0.0
  {
    if xs == [] then 0.0
    else
      var d := xs[0] as real - m;
      SquareSign(d);
      d * d + SquaredDeviations(xs[1..], m)
  }

  /**
   * `statistics.variance`: the sum of squared deviations from the mean,
   * divided by n - 1 (Bessel's correction).
   */
  function SampleVariance(xs: seq<nat>): (v: real)
    requires |xs| >= 2
    ensures v >= 0.0
  {
    QuotientFacts(SquaredDeviations(xs, Mean(xs)), (|xs| - 1) as real);
    SquaredDeviations(xs, Mean(xs)) / (|xs| - 1) as real
  }

  /** `sd` is the non-negative square root of `v`. */
  predicate IsSqrt(sd: real, v: real)
  {
    sd >= 0.0 && sd * sd == v
  }

  /** `root` behaves as `math.sqrt` on every non-negative argument. */
  ghost predicate IsSquareRoot(root: real -> real)
  {
    forall v :: v >= 0.0 ==> IsSqrt(root(v), v)
  }

  /** `sorted(daily_counts.keys())[-days:]`. */
  function WindowDates(t: Table, days: int): (w: seq<string>)
    ensures forall d :: d in w ==> d in t
  {
    var s := SortedKeys(t.Keys);
    SliceFromWithin(s, -days);
    PySliceFrom(s, -days)
  }

  /** The window lists its dates in ascending order, each once. */
  lemma WindowIncreasing(t: Table, days: int)
    ensures StrictlyIncreasing(WindowDates(t, days))
  {
    SliceFromIncreasing(SortedKeys(t.Keys), -days);
  }

  /** `[daily_counts[date].get(category, 0) for date in recent_dates]`. */
  function Samples(t: Table, category: string, days: int): (xs: seq<nat>)
    ensures |xs| == |WindowDates(t, days)|
    ensures forall i :: 0 <= i < |xs| ==> xs[i] == Get(t[WindowDates(t, days)[i]], category)
  {
    var w := WindowDates(t, days);
    seq(|w|, i requires 0 <= i < |w| => Get(t[w[i]], category))
  }

  /**
   * `calculate_baseline(daily_counts, category, days)`: (0, 0) on an empty
   * window, otherwise the mean and, with at least two samples, the square
   * root of the sample variance (0 with one sample).
   */
  function CalculateBaseline(t: Table, category: string, days: int, root: real -> real): (r: Stats)
    ensures r.mean >= 0.0
    ensures |WindowDates(t, days)| == 0 ==> r == Stats(0.0, 0.0)
    ensures |WindowDates(t, days)| > 0 ==> r.mean == Mean(Samples(t, category, days))
    ensures |WindowDates(t, days)| < 2 ==> r.stdev == 0.0
    ensures |WindowDates(t, days)| >= 2 ==> r.stdev == root(SampleVariance(Samples(t, category, days)))
  {
    var counts := Samples(t, category, days);
    if |counts| == 0 then Stats(0.0, 0.0)
    else
      var mean := Mean(counts);
      QuotientFacts(Sum(counts) as real, |counts| as real);
      var stdev := if |counts| > 1 then root(SampleVariance(counts)) else 0.0;
      Stats(mean, stdev)
  }

  // ---------------------------------------------------------------------
  // Which dates the window covers
  // ---------------------------------------------------------------------

  /**
   * A positive window covers exactly the last min(days, #dates) dates in
   * ascending order; `days == 0` covers all of them, since `[-0:]` is `[0:]`.
   */
  lemma WindowIsTrailing(t: Table, days: int)
    ensures days > 0 ==>
              WindowDates(t, days) == SortedKeys(t.Keys)[|t.Keys| - (if days <= |t.Keys| then days else |t.Keys|)..]
    ensures days == 0 ==> WindowDates(t, days) == SortedKeys(t.Keys)
  {
  }

  /** An empty table gives (0, 0), whatever the category and window. */
  lemma {:induction false} EmptyTableBaseline(t: Table, category: string, days: int, root: real -> real)
    requires t == map[]
    ensures CalculateBaseline(t, category, days, root) == Stats(0.0, 0.0)
  {
    assert |SortedKeys(t.Keys)| == 0;
  }

  // ---------------------------------------------------------------------
  // Facts about mean and variance
  // ---------------------------------------------------------------------

  lemma QuotientFacts(a: real, b: real)
    requires b > 0.0
    ensures a >= 0.0 ==> a / b >= 0.0
    ensures a > 0.0 ==> a / b > 0.0
  {
  }

  lemma {:induction false} SumPositive(xs: seq<nat>, k: int)
    requires 0 <= k < |xs| && xs[k] > 0
    ensures Sum(xs) >= xs[k] > 0
  {
    if k > 0 { SumPositive(xs[1..], k - 1); }
  }

  /** Non-negative counts with one positive count have a positive mean. */
  lemma MeanPositive(xs: seq<nat>, k: int)
    requires 0 <= k < |xs| && xs[k] > 0
    ensures Mean(xs) > 0.0
  {
    SumPositive(xs, k);
    QuotientFacts(Sum(xs) as real, |xs| as real);
  }

  lemma {:induction false} SumConstant(xs: seq<nat>, v: nat)
    requires forall i :: 0 <= i < |xs| ==> xs[i] == v
    ensures Sum(xs) == |xs| * v
  {
    if xs != [] {
      SumConstant(xs[1..], v);
      assert |xs| * v == (|xs| - 1) * v + v;
    }
  }

  /** A square is non-negative, and zero exactly when its base is. */
  lemma SquareSign(d: real)
    ensures d * d >= 0.0
    ensures d * d == 0.0 <==> d == 0.0
  {
    if d > 0.0 {
      ProductPositive(d, d, d * d);
    } else if d < 0.0 {
      ProductPositive(-d, -d, d * d);
    }
  }

  lemma {:induction false} SquaredDeviationsZero(xs: seq<nat>, m: real)
    ensures SquaredDeviations(xs, m) == 0.0 <==> forall i :: 0 <= i < |xs| ==> xs[i] as real == m
  {
    if xs != [] {
      SquaredDeviationsZero(xs[1..], m);
      SquaredZeroHead(xs, m);
      AllAtFromHead(xs, m);
    }
  }

  /** A sum of squared deviations is zero exactly when its first term and the rest are. */
  lemma SquaredZeroHead(xs: seq<nat>, m: real)
    requires xs != []
    ensures SquaredDeviations(xs, m) == 0.0 <==> xs[0] as real == m && SquaredDeviations(xs[1..], m) == 0.0
  {
    var d := xs[0] as real - m;
    SquareSign(d);
    NonnegativeSumZero(d * d, SquaredDeviations(xs[1..], m));
  }

  lemma NonnegativeSumZero(p: real, q: real)
    requires p >= 0.0 && q >= 0.0
    ensures p + q == 0.0 <==> p == 0.0 && q == 0.0
  {
  }

  lemma AllAtFromHead(xs: seq<nat>, m: real)
    requires xs != []
    ensures (forall i :: 0 <= i < |xs| ==> xs[i] as real == m) <==>
            xs[0] as real == m && forall i :: 0 <= i < |xs[1..]| ==> xs[1..][i] as real == m
  {
    if forall i :: 0 <= i < |xs| ==> xs[i] as real == m {
      assert forall i :: 0 <= i < |xs[1..]| ==> xs[1..][i] == xs[i + 1];
    }
    if forall i :: 0 <= i < |xs[1..]| ==> xs[1..][i] as real == m {
      assert forall i :: 1 <= i < |xs| ==> xs[i] == xs[1..][i - 1];
    }
  }

  /** Every sample equals the mean exactly when all samples are equal. */
  lemma AtMeanIffConstant(xs: seq<nat>)
    requires |xs| >= 1
    ensures (forall i :: 0 <= i < |xs| ==> xs[i] as real == Mean(xs)) <==> (forall i :: 0 <= i < |xs| ==> xs[i] == xs[0])
  {
    if forall i :: 0 <= i < |xs| ==> xs[i] == xs[0] {
      SumConstant(xs, xs[0]);
      CastProduct(|xs|, xs[0]);
      CancelReal(Mean(xs), xs[0] as real, |xs| as real);
    }
  }

  lemma CastProduct(x: int, y: int)
    ensures (x * y) as real == x as real * y as real
  {
  }

  lemma CancelReal(a: real, b: real, n: real)
    requires n > 0.0 && a * n == n * b
    ensures a == b
  {
  }

  /** The sample variance is 0 exactly when all sampled counts are equal, and positive otherwise. */
  lemma VarianceZeroIffConstant(xs: seq<nat>)
    requires |xs| >= 2
    ensures SampleVariance(xs) >= 0.0
    ensures SampleVariance(xs) == 0.0 <==> forall i :: 0 <= i < |xs| ==> xs[i] == xs[0]
  {
    QuotientFacts(SquaredDeviations(xs, Mean(xs)), (|xs| - 1) as real);
    SquaredDeviationsZero(xs, Mean(xs));
    AtMeanIffConstant(xs);
  }

  /**
   * For two samples the variance is half their squared difference, the
   * value `statistics.variance([a, b])` gives.
   */
  lemma VarianceOfPair(a: nat, b: nat)
    ensures SampleVariance([a, b]) * 2.0 == (a as real - b as real) * (a as real - b as real)
  {
    var xs := [a, b];
    var m := Mean(xs);
    assert xs[1..] == [b] && [b][1..] == [];
    assert Sum([b]) == b;
    assert Sum(xs) == a + b;
    assert m * 2.0 == (a + b) as real;
    var h := (a as real - b as real) / 2.0;
    assert a as real - m == h && b as real - m == -h;
    assert SquaredDeviations([b], m) == (-h) * (-h);
    assert SquaredDeviations(xs, m) == h * h + (-h) * (-h);
    PairSquares(h, a as real - b as real);
  }

  lemma PairSquares(h: real, d: real)
    requires h * 2.0 == d
    ensures (h * h + (-h) * (-h)) * 2.0 == d * d
  {
  }

  /** A non-negative square root is positive exactly when its square is. */
  lemma SqrtPositiveIff(sd: real, v: real)
    requires IsSqrt(sd, v)
    ensures v >= 0.0
    ensures sd > 0.0 <==> v > 0.0
  {
    if sd > 0.0 { ProductPositive(sd, sd, v); }
    if sd == 0.0 { assert v == 0.0 * 0.0; }
  }

  /**
   * With at least two samples, the standard deviation is positive exactly
   * when some two sampled counts differ.
   */
  lemma StdevPositiveIffSpread(xs: seq<nat>, sd: real)
    requires |xs| >= 2 && IsSqrt(sd, SampleVariance(xs))
    ensures sd > 0.0 <==> exists i :: 0 <= i < |xs| && xs[i] != xs[0]
  {
    VarianceZeroIffConstant(xs);
    SqrtPositiveIff(sd, SampleVariance(xs));
  }

  /** A category whose count is the same on every date of the window has stdev 0. */
  lemma ConstantCountsZeroStdev(t: Table, category: string, days: int, root: real -> real, v: nat)
    requires forall d :: d in WindowDates(t, days) ==> Get(t[d], category) == v
    requires IsSquareRoot(root)
    ensures CalculateBaseline(t, category, days, root).stdev == 0.0
  {
    var xs := Samples(t, category, days);
    if |xs| >= 2 {
      assert forall i :: 0 <= i < |xs| ==> xs[i] == v;
      VarianceZeroIffConstant(xs);
      SqrtPositiveIff(root(0.0), 0.0);
    }
  }

  /**
   * The baseline stdev is positive exactly when the window holds at least
   * two dates whose counts for the category differ.
   */
  lemma BaselineStdevPositiveIff(t: Table, category: string, days: int, root: real -> real)
    requires IsSquareRoot(root)
    ensures CalculateBaseline(t, category, days, root).stdev >= 0.0
    ensures CalculateBaseline(t, category, days, root).stdev > 0.0 <==>
              exists i, j :: 0 <= i < j < |Samples(t, category, days)| && Samples(t, category, days)[i] != Samples(t, category, days)[j]
  {
    var xs := Samples(t, category, days);
    if |xs| >= 2 {
      var v := SampleVariance(xs);
      VarianceZeroIffConstant(xs);
      SqrtPositiveIff(root(v), v);
      if exists i :: 0 <= i < |xs| && xs[i] != xs[0] {
        var i :| 0 <= i < |xs| && xs[i] != xs[0];
        assert 0 < i && xs[0] != xs[i];
      }
    }
  }

  /**
   * A positive stdev means two sampled counts differ, so one of them is
   * positive and so is the mean.
   */
  lemma SpreadMeansPositiveMean(t: Table, category: string, days: int, root: real -> real)
    requires IsSquareRoot(root)
    requires CalculateBaseline(t, category, days, root).stdev > 0.0
    ensures CalculateBaseline(t, category, days, root).mean > 0.0
  {
    var xs := Samples(t, category, days);
    BaselineStdevPositiveIff(t, category, days, root);
    var i, j :| 0 <= i < j < |xs| && xs[i] != xs[j];
    if xs[i] > 0 { MeanPositive(xs, i); } else { MeanPositive(xs, j); }
  }

  /** The mean lies between the smallest and largest sample. */
  lemma {:induction false} SumBounds(xs: seq<nat>, lo: nat, hi: nat)
    requires forall i :: 0 <= i < |xs| ==> lo <= xs[i] <= hi
    ensures |xs| * lo <= Sum(xs) <= |xs| * hi
  {
    if xs != [] {
      SumBounds(xs[1..], lo, hi);
      assert |xs| * lo == (|xs| - 1) * lo + lo;
      assert |xs| * hi == (|xs| - 1) * hi + hi;
    }
  }

  lemma MeanBounds(xs: seq<nat>, lo: nat, hi: nat)
    requires |xs| > 0
    requires forall i :: 0 <= i < |xs| ==> lo <= xs[i] <= hi
    ensures lo as real <= Mean(xs) <= hi as real
  {
    SumBounds(xs, lo, hi);
    DivBounds(Sum(xs) as real, |xs| as real, lo as real, hi as real);
  }

  lemma DivBounds(a: real, n: real, lo: real, hi: real)
    requires n > 0.0 && n * lo <= a <= n * hi
    ensures lo <= a / n <= hi
  {
  }

  // ---------------------------------------------------------------------
  // Products of reals. Each lemma names its product as a separate value,
  // so that it can be used for a square without the solver rewriting it.
  // ---------------------------------------------------------------------

  lemma ProductPositive(x: real, y: real, p: real)
    requires x > 0.0 && y > 0.0 && x * y == p
    ensures p > 0.0
  {
  }

  lemma ProductNonnegative(x: real, y: real, p: real)
    requires x >= 0.0 && y >= 0.0 && x * y == p
    ensures p >= 0.0
  {
  }

  lemma ProductBelow(a: real, b: real, c: real, d: real)
    requires 0.0 <= a < c && 0.0 <= b < d
    ensures a * b < c * d
  {
    var ab, cb, cd := a * b, c * b, c * d;
    assert ab <= cb by {
      assert cb - ab == (c - a) * b;
      ProductNonnegative(c - a, b, (c - a) * b);
    }
    assert cb < cd by {
      assert cd - cb == c * (d - b);
      ProductPositive(c, d - b, c * (d - b));
    }
  }

  /** Squaring preserves strict order on non-negative reals. */
  lemma SquareMonotone(a: real, b: real)
    requires a >= 0.0 && b >= 0.0
    ensures a > b <==> a * a > b * b
  {
    if a > b { ProductBelow(b, b, a, a); }
    else if a < b { ProductBelow(a, a, b, b); }
  }
}
