/** The aggregate confidence of a recognition result: the mean of the
    per-line confidences as a percentage, rounded to two decimals. Numbers
    are exact reals here, not binary floats. */
module Confidence {

  /** Left-to-right sum starting from 0, as Python's `sum` adds. */
  function Sum(xs: seq<real>): (s: real)
    ensures |xs| == 0 ==> s == 0.0
    ensures |xs| == 1 ==> s == xs[0]
  {
    if |xs| == 0 then 0.0 else Sum(xs[..|xs| - 1]) + xs[|xs| - 1]
  }

  /** Adding from the front instead gives the same total. */
  lemma {:induction false} SumFromFront(xs: seq<real>)
    requires |xs| > 0
    ensures Sum(xs) == xs[0] + Sum(xs[1..])
    decreases |xs|
  {
    if |xs| > 1 {
      var init := xs[..|xs| - 1];
      SumFromFront(init);
      assert init[1..] == xs[1..][..|xs[1..]| - 1];
    } else {
      assert xs[1..] == [];
    }
  }

  /** Every value lies in the closed interval [lo, hi]. */
  predicate AllWithin(xs: seq<real>, lo: real, hi: real)
  {
    forall i :: 0 <= i < |xs| ==> lo <= xs[i] <= hi
  }

  /** n values in [lo, hi] sum to something in [n * lo, n * hi]. */
  lemma {:induction false} SumBounds(xs: seq<real>, lo: real, hi: real)
    requires AllWithin(xs, lo, hi)
    ensures Between(Sum(xs), |xs| as real, lo, hi)
    decreases |xs|
  {
    if |xs| > 0 {
      var init := xs[..|xs| - 1];
      AllWithinPrefix(xs, |xs| - 1, lo, hi);
      SumBounds(init, lo, hi);
      AddOneWithin(|init| as real, |xs| as real, Sum(init), xs[|xs| - 1], lo, hi);
    }
  }

  /** A total of n values lies in [n lo, n hi]. */
  predicate Between(total: real, n: real, lo: real, hi: real)
  {
    n * lo <= total <= n * hi
  }

  /** A prefix of values in [lo, hi] has its values in [lo, hi]. */
  lemma AllWithinPrefix(xs: seq<real>, k: nat, lo: real, hi: real)
    requires k <= |xs|
    requires AllWithin(xs, lo, hi)
    ensures AllWithin(xs[..k], lo, hi)
  {
    forall i | 0 <= i < k ensures lo <= xs[..k][i] <= hi {
      assert xs[..k][i] == xs[i];
    }
  }

  /** Adding one value in [lo, hi] to a total of m values in [m lo, m hi]
      gives a total of n = m + 1 values in [n lo, n hi]. */
  lemma AddOneWithin(m: real, n: real, total: real, x: real, lo: real, hi: real)
    requires n == m + 1.0
    requires Between(total, m, lo, hi)
    requires lo <= x <= hi
    ensures Between(total + x, n, lo, hi)
  {
    assert (m + 1.0) * lo == m * lo + lo;
    assert (m + 1.0) * hi == m * hi + hi;
  }

  /** `sum(xs) / len(xs) * 100 if xs else 0`: the mean as a percentage, before
      rounding; no division happens for an empty list. */
  function MeanPercent(xs: seq<real>): (m: real)
    ensures |xs| == 0 ==> m == 0.0
    ensures |xs| > 0 ==> m * (|xs| as real) == 100.0 * Sum(xs)
  {
    if |xs| > 0 then Sum(xs) / (|xs| as real) * 100.0 else 0.0
  }

  /** The mean percentage of values in [lo, hi] lies in [100 lo, 100 hi]. */
  lemma MeanPercentBounds(xs: seq<real>, lo: real, hi: real)
    requires |xs| > 0
    requires AllWithin(xs, lo, hi)
    ensures 100.0 * lo <= MeanPercent(xs) <= 100.0 * hi
  {
    SumBounds(xs, lo, hi);
    QuotientBounds(Sum(xs), |xs| as real, lo, hi);
  }

  /** Dividing by a positive n keeps a value in [n a, n b] within [a, b]. */
  lemma QuotientBounds(s: real, n: real, a: real, b: real)
    requires n > 0.0
    requires n * a <= s <= n * b
    ensures a <= s / n <= b
  {
    assert (s - n * a) / n == s / n - a;
    assert (n * b - s) / n == b - s / n;
  }

  /** Confidences on the 0-1 scale give an aggregate on the 0-100 scale. */
  lemma UnitConfidencesGivePercent(xs: seq<real>)
    requires AllWithin(xs, 0.0, 1.0)
    ensures 0.0 <= MeanPercent(xs) <= 100.0
  {
    if |xs| > 0 {
      MeanPercentBounds(xs, 0.0, 1.0);
    }
  }

  /** The integer nearest to `y`; an exact half goes to the even neighbour. */
  function RoundHalfEven(y: real): (k: int)
    ensures y - 0.5 <= k as real <= y + 0.5
    ensures y - y.Floor as real != 0.5 ==> y - 0.5 < k as real < y + 0.5
    ensures y - y.Floor as real == 0.5 ==> k % 2 == 0
    ensures y == y.Floor as real ==> k == y.Floor
  {
    var f := y.Floor;
    var frac := y - f as real;
    if frac < 0.5 then f
    else if frac > 0.5 then f + 1
    else if f % 2 == 0 then f
    else f + 1
  }

  /** Rounding to the nearest integer never reverses an order. */
  lemma RoundHalfEvenMonotone(y1: real, y2: real)
    requires y1 <= y2
    ensures RoundHalfEven(y1) <= RoundHalfEven(y2)
  {
    var f1, f2 := y1.Floor, y2.Floor;
    if f1 < f2 {
      assert RoundHalfEven(y1) <= f1 + 1 <= f2 <= RoundHalfEven(y2);
    } else {
      assert f1 == f2;
      assert y1 - f1 as real <= y2 - f2 as real;
    }
  }

  /** `round(x, 2)`: `x` rounded to a whole number of hundredths, an exact
      half going to the even hundredth. */
  function Round2(x: real): (r: real)
    ensures x - 0.005 <= r <= x + 0.005
    ensures (r * 100.0).Floor as real == r * 100.0
    ensures x * 100.0 - (x * 100.0).Floor as real == 0.5 ==> (r * 100.0).Floor % 2 == 0
  {
    var y := x * 100.0;
    var k := RoundHalfEven(y);
    var r := k as real / 100.0;
    assert r * 100.0 == k as real;
    assert (r * 100.0).Floor == k;
    assert x == y / 100.0;
    r
  }

  /** A value already on a whole hundredth is left unchanged. */
  lemma Round2Exact(k: int)
    ensures Round2(k as real / 100.0) == k as real / 100.0
  {
    var x := k as real / 100.0;
    assert x * 100.0 == k as real;
    assert (x * 100.0).Floor == k;
  }

  /** Rounding to hundredths never reverses an order. */
  lemma Round2Monotone(x1: real, x2: real)
    requires x1 <= x2
    ensures Round2(x1) <= Round2(x2)
  {
    RoundHalfEvenMonotone(x1 * 100.0, x2 * 100.0);
  }

  /** A percentage stays within 0-100 after rounding. */
  lemma Round2KeepsPercentRange(x: real)
    requires 0.0 <= x <= 100.0
    ensures 0.0 <= Round2(x) <= 100.0
  {
    Round2Monotone(0.0, x);
    Round2Monotone(x, 100.0);
    Round2Exact(0);
    Round2Exact(10000);
  }
}
