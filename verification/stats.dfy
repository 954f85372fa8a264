/** Sums, means and ratios used by the scorers. */
module Stats {
  import opened Wrappers

  /** `xs.reduce((a, v) => a + v, 0)`: no values sum to 0 and one value
      sums to itself; `SumAppend` shows the sum adds up over any split. */
  function Sum(xs: seq<real>): (s: real)
    ensures |xs| == 0 ==> s == 0.0
    ensures |xs| == 1 ==> s == xs[0]
  {
    if |xs| == 0 then 0.0 else xs[0] + Sum(xs[1..])
  }

  /** Summing a concatenation is adding the sums of its parts, so the order
      in which `reduce` visits the values does not matter. */
  lemma {:induction false} SumAppend(a: seq<real>, b: seq<real>)
    ensures Sum(a + b) == Sum(a) + Sum(b)
    decreases |a|
  {
    if |a| > 0 {
      assert (a + b)[1..] == a[1..] + b;
      SumAppend(a[1..], b);
    } else {
      assert a + b == b;
    }
  }

  /** `xs.reduce((a, v) => a + v, 0) / xs.length`, or 0 for no values. */
  function Mean(xs: seq<real>): (r: real)
    ensures |xs| == 0 ==> r == 0.0
  {
    if |xs| == 0 then 0.0 else Sum(xs) / |xs| as real
  }

  /** The mean of some values times their number is their sum. */
  lemma MeanTimesCount(xs: seq<real>)
    requires |xs| > 0
    ensures Mean(xs) * |xs| as real == Sum(xs)
  {
    MulBack(Mean(xs), Sum(xs), |xs| as real);
  }

  lemma MulBack(m: real, t: real, n: real)
    requires n > 0.0 && m == t / n
    ensures m * n == t
  {
  }

  lemma {:induction false} SumBounds(xs: seq<real>, lo: real, hi: real)
    requires forall i :: 0 <= i < |xs| ==> lo <= xs[i] <= hi
    ensures |xs| as real * lo <= Sum(xs) <= |xs| as real * hi
  {
    if |xs| > 0 {
      SumBounds(xs[1..], lo, hi);
    }
  }

  /** The mean of values within [lo, hi] is within [lo, hi]. */
  lemma MeanBounds(xs: seq<real>, lo: real, hi: real)
    requires |xs| > 0
    requires forall i :: 0 <= i < |xs| ==> lo <= xs[i] <= hi
    ensures lo <= Mean(xs) <= hi
  {
    SumBounds(xs, lo, hi);
    var n := |xs| as real;
    assert n * lo / n == lo;
    assert n * hi / n == hi;
    DivMonotone(n * lo, Sum(xs), n);
    DivMonotone(Sum(xs), n * hi, n);
  }

  lemma {:induction false} SumAtMost(xs: seq<real>, hi: real)
    requires forall i :: 0 <= i < |xs| ==> xs[i] <= hi
    ensures Sum(xs) <= |xs| as real * hi
  {
    if |xs| > 0 {
      SumAtMost(xs[1..], hi);
    }
  }

  /** The mean of values at most `hi` (and of no values, 0) is at most `hi`
      when `hi` is not negative. */
  lemma MeanAtMost(xs: seq<real>, hi: real)
    requires hi >= 0.0
    requires forall i :: 0 <= i < |xs| ==> xs[i] <= hi
    ensures Mean(xs) <= hi
  {
    if |xs| > 0 {
      SumAtMost(xs, hi);
      var n := |xs| as real;
      assert n * hi / n == hi;
      DivMonotone(Sum(xs), n * hi, n);
    }
  }

  /** For a + b > 0 the shares a / (a + b) and b / (a + b) lie in [0, 1] and
      add up to 1. */
  lemma Shares(a: nat, b: nat)
    ensures a + b > 0 ==>
      && 0.0 <= a as real / (a + b) as real <= 1.0
      && a as real / (a + b) as real + b as real / (a + b) as real == 1.0
  {
    if a + b > 0 {
      RatioInUnit(a as real, (a + b) as real);
    }
  }

  /** `num / den` when `den > 0`, otherwise null. */
  function RatioOrNull(num: nat, den: nat): (r: Option<real>)
    ensures r.None? <==> den == 0
    ensures r.Some? && num <= den ==> 0.0 <= r.value <= 1.0
  {
    if den > 0 then
      RatioInUnitIfBelow(num, den);
      Some(num as real / den as real)
    else None
  }

  /** `num / den` when `den > 0`, otherwise 0. */
  function RatioOrZero(num: nat, den: nat): (r: real)
    ensures den == 0 ==> r == 0.0
    ensures num <= den ==> 0.0 <= r <= 1.0
  {
    if den > 0 then
      RatioInUnitIfBelow(num, den);
      num as real / den as real
    else 0.0
  }

  lemma RatioInUnitIfBelow(num: nat, den: nat)
    requires den > 0
    ensures num <= den ==> 0.0 <= num as real / den as real <= 1.0
  {
    if num <= den {
      RatioInUnit(num as real, den as real);
    }
  }

  /** The two shares of a non-empty total add up to one. */
  lemma ComplementaryShares(a: nat, b: nat)
    requires a + b > 0
    ensures RatioOrNull(a, a + b).value + RatioOrZero(b, a + b) == 1.0
  {
    Shares(a, b);
  }

  lemma DivMonotone(a: real, b: real, n: real)
    requires a <= b && n > 0.0
    ensures a / n <= b / n
  {
    assert b / n - a / n == (b - a) / n;
  }

  /** `num / den` for a positive denominator lies in [0, 1] when
      0 <= num <= den. */
  lemma RatioInUnit(num: real, den: real)
    requires 0.0 <= num <= den && den > 0.0
    ensures 0.0 <= num / den <= 1.0
  {
    DivMonotone(num, den, den);
    DivMonotone(0.0, num, den);
  }
}
