/** The linear-interpolation quantile at position (n - 1) * q of the sorted
    values (Hyndman and Fan's type 7), shared by the periodic estimator and
    the backtest. */
module Quantiles {
  import opened Wrappers
  import opened Sorting

  /** Smallest element of a non-empty sequence. */
  function Min(s: seq<real>): (m: real)
    requires |s| > 0
    ensures forall i :: 0 <= i < |s| ==> m <= s[i]
    ensures m in s
  {
    if |s| == 1 then s[0]
    else
      var rest := Min(s[1..]);
      assert forall i :: 1 <= i < |s| ==> s[i] == s[1..][i - 1];
      if s[0] <= rest then s[0] else rest
  }

  /** Largest element of a non-empty sequence. */
  function Max(s: seq<real>): (m: real)
    requires |s| > 0
    ensures forall i :: 0 <= i < |s| ==> s[i] <= m
    ensures m in s
  {
    if |s| == 1 then s[0]
    else
      var rest := Max(s[1..]);
      assert forall i :: 1 <= i < |s| ==> s[i] == s[1..][i - 1];
      if s[0] >= rest then s[0] else rest
  }

  /** Reading an ascending sequence at a real position: interpolate between
      the elements at `floor(pos)` and `floor(pos) + 1`, or take the element
      at `floor(pos)` alone when it is the last one; no element there gives
      no number. */
  function ReadAt(sorted: seq<real>, pos: real): (r: Option<real>)
    ensures 0.0 <= pos <= (|sorted| - 1) as real && Ascending(sorted) ==>
      r.Some? && sorted[0] <= r.value <= sorted[|sorted| - 1]
  {
    var base := pos.Floor;
    var rest := pos - base as real;
    if 0 <= base && base + 1 < |sorted| then
      ReadAtBetween(sorted, pos);
      Some(Lerp(sorted[base], sorted[base + 1], rest))
    else if 0 <= base < |sorted| then Some(sorted[base])
    else None
  }

  /** The point a fraction `t` of the way from `a` to `b`. */
  function Lerp(a: real, b: real, t: real): real {
    a + t * (b - a)
  }

  lemma ReadAtBetween(sorted: seq<real>, pos: real)
    requires 0 <= pos.Floor && pos.Floor + 1 < |sorted|
    ensures var base := pos.Floor;
      Ascending(sorted) ==>
        sorted[0] <= Lerp(sorted[base], sorted[base + 1], pos - base as real) <= sorted[|sorted| - 1]
  {
    var base := pos.Floor;
    if Ascending(sorted) {
      assert sorted[0] <= sorted[base];
      assert sorted[base + 1] <= sorted[|sorted| - 1];
      InterpolationBetween(sorted[base], sorted[base + 1], pos - base as real);
    }
  }

  /** The quantile of an already sorted sequence: read it at position
      (n - 1) * q. */
  function SortedQuantile(sorted: seq<real>, q: real): (r: Option<real>)
    requires |sorted| > 0
    ensures 0.0 <= q <= 1.0 && Ascending(sorted) ==>
      r.Some? && sorted[0] <= r.value <= sorted[|sorted| - 1]
  {
    PositionInRange(|sorted|, q);
    ReadAt(sorted, Position(|sorted|, q))
  }

  /** The position (n - 1) * q, written as a repeated sum so that the solver
      does not unfold a product; `PositionIsProduct` shows it is the product. */
  function Position(n: nat, q: real): real
    decreases n
  {
    if n <= 1 then 0.0 else Position(n - 1, q) + q
  }

  lemma {:induction false} PositionIsProduct(n: nat, q: real)
    requires n > 0
    ensures Position(n, q) == (n - 1) as real * q
  {
    if n > 1 {
      PositionIsProduct(n - 1, q);
      assert (n - 1) as real * q == (n - 2) as real * q + q;
    }
  }

  lemma {:induction false} PositionInRange(n: nat, q: real)
    ensures 0.0 <= q <= 1.0 && n > 0 ==> 0.0 <= Position(n, q) <= (n - 1) as real
  {
    if n > 1 {
      PositionInRange(n - 1, q);
    }
  }

  lemma {:induction false} PositionMonotone(n: nat, q1: real, q2: real)
    requires q1 <= q2
    ensures Position(n, q1) <= Position(n, q2)
  {
    if n > 1 {
      PositionMonotone(n - 1, q1, q2);
    }
  }

  lemma {:induction false} PositionEnds(n: nat)
    requires n > 0
    ensures Position(n, 0.0) == 0.0 && Position(n, 1.0) == (n - 1) as real
  {
    if n > 1 {
      PositionEnds(n - 1);
    }
  }

  /** `quantile(values, q)`: the quantile of a sorted copy. Where the
      source reads an element of the sorted copy the model returns the same
      number; where it reads outside the copy (a negative `q`, or a `q` so
      large that `floor((n - 1) * q) >= n`) the source gets `undefined` or
      `NaN` and the model returns None. */
  function Quantile(values: seq<real>, q: real): (r: Option<real>)
    ensures |values| == 0 ==> r.None?
    ensures |values| > 0 && 0.0 <= q <= 1.0 ==>
      r.Some? && Min(values) <= r.value <= Max(values)
  {
    if |values| == 0 then None
    else
      var sorted := SortReals(values);
      SortedRealsAscending(sorted);
      SortedEnds(sorted, values);
      SortedQuantile(sorted, q)
  }

  /** `quantile(values, 0)` is the minimum and `quantile(values, 1)` the
      maximum. */
  lemma QuantileEnds(values: seq<real>)
    requires |values| > 0
    ensures Quantile(values, 0.0) == Some(Min(values))
    ensures Quantile(values, 1.0) == Some(Max(values))
  {
    var sorted := SortReals(values);
    SortedRealsAscending(sorted);
    SortedEnds(sorted, values);
    var n := |sorted|;
    PositionEnds(n);
    assert Quantile(values, 0.0) == ReadAt(sorted, 0.0);
    assert Quantile(values, 1.0) == ReadAt(sorted, (n - 1) as real);
    ReadAtFirst(sorted);
    ReadAtLast(sorted);
  }

  lemma ReadAtFirst(s: seq<real>)
    requires |s| > 0
    ensures ReadAt(s, 0.0) == Some(s[0])
  {
    assert (0.0).Floor == 0;
    if |s| > 1 {
      assert Lerp(s[0], s[1], 0.0) == s[0];
    }
  }

  lemma ReadAtLast(s: seq<real>)
    requires |s| > 0
    ensures ReadAt(s, (|s| - 1) as real) == Some(s[|s| - 1])
  {
    assert ((|s| - 1) as real).Floor == |s| - 1;
  }

  /** The first and last elements of the ascending sort are the minimum and
      the maximum of the input. */
  lemma SortedEnds(sorted: seq<real>, values: seq<real>)
    requires |values| > 0
    requires Ascending(sorted) && multiset(sorted) == multiset(values)
    ensures |sorted| == |values|
    ensures sorted[0] == Min(values) && sorted[|sorted| - 1] == Max(values)
    ensures forall i :: 0 <= i < |sorted| ==> Min(values) <= sorted[i] <= Max(values)
  {
    assert |sorted| == |multiset(sorted)| == |multiset(values)| == |values|;
    forall i | 0 <= i < |sorted|
      ensures Min(values) <= sorted[i] <= Max(values)
    {
      assert sorted[i] in multiset(values);
    }
    assert Min(values) in multiset(sorted);
    assert Max(values) in multiset(sorted);
  }

  lemma MulNonNegative(x: real, y: real)
    requires x >= 0.0 && y >= 0.0
    ensures x * y >= 0.0
  {
  }

  lemma InterpolationBetween(a: real, b: real, rest: real)
    requires a <= b && 0.0 <= rest < 1.0
    ensures a <= Lerp(a, b, rest) <= b
  {
    var d := b - a;
    MulNonNegative(rest, d);
    MulNonNegative(1.0 - rest, d);
    assert d - rest * d == (1.0 - rest) * d;
  }

  /** The quantile depends only on the multiset of values, not on their order. */
  lemma QuantilePermutationInvariant(a: seq<real>, b: seq<real>, q: real)
    requires multiset(a) == multiset(b)
    ensures Quantile(a, q) == Quantile(b, q)
  {
    if |a| > 0 {
      assert |a| == |multiset(a)| == |multiset(b)| == |b|;
      SortRealsPermutationInvariant(a, b);
    } else {
      assert |b| == |multiset(b)| == 0;
    }
  }

  /** Reading an ascending sequence further along never gives a smaller value. */
  lemma ReadAtMonotone(s: seq<real>, p1: real, p2: real)
    requires Ascending(s) && |s| > 0
    requires 0.0 <= p1 <= p2 <= (|s| - 1) as real
    ensures ReadAt(s, p1).Some? && ReadAt(s, p2).Some?
    ensures ReadAt(s, p1).value <= ReadAt(s, p2).value
  {
    var b1, b2 := p1.Floor, p2.Floor;
    ReadAtBounds(s, p1);
    ReadAtBounds(s, p2);
    if b1 == b2 {
      ReadAtSameBase(s, p1, p2);
    } else {
      assert b1 + 1 <= b2;
      assert s[b1 + 1] <= s[b2];
    }
  }

  /** A read lies between the element at its base position and the next
      one. */
  lemma ReadAtBounds(s: seq<real>, p: real)
    requires Ascending(s) && |s| > 0
    requires 0.0 <= p <= (|s| - 1) as real
    ensures 0 <= p.Floor < |s|
    ensures ReadAt(s, p).Some? && s[p.Floor] <= ReadAt(s, p).value
    ensures p.Floor + 1 < |s| ==> ReadAt(s, p).value <= s[p.Floor + 1]
  {
    var b := p.Floor;
    if b + 1 < |s| {
      InterpolationBetween(s[b], s[b + 1], p - b as real);
    }
  }

  /** Two reads with the same base position are ordered by their
      fractional parts. */
  lemma ReadAtSameBase(s: seq<real>, p1: real, p2: real)
    requires Ascending(s) && |s| > 0
    requires 0.0 <= p1 <= p2 <= (|s| - 1) as real
    requires p1.Floor == p2.Floor
    ensures ReadAt(s, p1).Some? && ReadAt(s, p2).Some?
    ensures ReadAt(s, p1).value <= ReadAt(s, p2).value
  {
    var b := p1.Floor;
    if b + 1 < |s| {
      LerpMonotone(s[b], s[b + 1], p1 - b as real, p2 - b as real);
    }
  }

  lemma LerpMonotone(a: real, b: real, t1: real, t2: real)
    requires a <= b && t1 <= t2
    ensures Lerp(a, b, t1) <= Lerp(a, b, t2)
  {
    MulNonNegative(t2 - t1, b - a);
    assert Lerp(a, b, t2) - Lerp(a, b, t1) == (t2 - t1) * (b - a);
  }

  lemma SortedQuantileMonotone(sorted: seq<real>, q1: real, q2: real)
    requires Ascending(sorted) && |sorted| > 0
    requires 0.0 <= q1 <= q2 <= 1.0
    ensures SortedQuantile(sorted, q1).Some? && SortedQuantile(sorted, q2).Some?
    ensures SortedQuantile(sorted, q1).value <= SortedQuantile(sorted, q2).value
  {
    var n := |sorted|;
    PositionInRange(n, q1);
    PositionInRange(n, q2);
    PositionMonotone(n, q1, q2);
    ReadAtMonotone(sorted, Position(n, q1), Position(n, q2));
  }

  /** A lower quantile never exceeds a higher one. */
  lemma QuantileMonotone(values: seq<real>, q1: real, q2: real)
    requires |values| > 0
    requires 0.0 <= q1 <= q2 <= 1.0
    ensures Quantile(values, q1).Some? && Quantile(values, q2).Some?
    ensures Quantile(values, q1).value <= Quantile(values, q2).value
  {
    var sorted := SortReals(values);
    SortedRealsAscending(sorted);
    SortedQuantileMonotone(sorted, q1, q2);
  }
}
