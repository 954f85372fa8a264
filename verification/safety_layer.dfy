/** Hard guardrails for every band: absolute safety bounds per metric, a
    clamp into them and a bounded-step blend toward a new candidate. */
module SafetyLayer {
  import opened Wrappers
  import opened Metrics

  /** `SAFETY_BOUNDS`: the absolute band no threshold may leave. */
  function SafetyBounds(m: Metric): (b: Band)
    ensures b.low < b.high
  {
    match m
    case TempF => Band(35.0, 95.0)
    case RhPct => Band(30.0, 95.0)
    case SoilMoisturePct => Band(20.0, 60.0)
  }

  /** A band ordered and inside the metric's safety bounds. */
  ghost predicate WithinSafety(b: Band, m: Metric) {
    SafetyBounds(m).low <= b.low <= b.high <= SafetyBounds(m).high
  }

  /** `clamp(v, low, high)` = `max(low, min(high, v))`. */
  function Clamp(v: real, low: real, high: real): (r: real)
    ensures low <= high ==> low <= r <= high
    ensures low <= v <= high ==> r == v
    ensures v < low ==> r == low
    ensures low <= high && high < v ==> r == high
  {
    var upper := if high < v then high else v;
    if low < upper then upper else low
  }

  /** Clamping is monotone in the clamped value. */
  lemma ClampMonotone(v: real, w: real, low: real, high: real)
    requires v <= w
    ensures Clamp(v, low, high) <= Clamp(w, low, high)
  {
  }

  /** `Math.sign`. */
  function Sign(x: real): (s: real)
    ensures s == -1.0 || s == 0.0 || s == 1.0
    ensures s * x == Abs(x)
    ensures s == 0.0 <==> x == 0.0
  {
    if x > 0.0 then 1.0 else if x < 0.0 then -1.0 else 0.0
  }

  function Abs(x: real): real {
    if x < 0.0 then -x else x
  }

  /** `blendStep(previous, next, maxStep)`: accept `next` when there is no
      previous value or it is within `maxStep` of it, otherwise move exactly
      `maxStep` from `previous` toward `next`. */
  function BlendStep(previous: Option<real>, next: real, maxStep: real): (r: real)
    ensures previous.None? ==> r == next
    ensures previous.Some? ==> (r == next <==> Abs(next - previous.value) <= maxStep || next == previous.value)
    ensures previous.Some? && maxStep >= 0.0 ==> Abs(r - previous.value) <= maxStep
    ensures previous.Some? && maxStep >= 0.0 ==>
      (previous.value <= r <= next || next <= r <= previous.value)
  {
    match previous
    case None => next
    case Some(p) =>
      if Abs(next - p) <= maxStep then next
      else p + Sign(next - p) * maxStep
  }

  /** For a non-negative step the blend is the candidate clamped into
      `[previous - maxStep, previous + maxStep]`. */
  lemma BlendStepIsClampAroundPrevious(p: real, n: real, s: real)
    requires s >= 0.0
    ensures BlendStep(Some(p), n, s) == Clamp(n, p - s, p + s)
  {
  }

  /** A previous value equal to the candidate is a fixed point. */
  lemma BlendStepFixedPoint(p: real, s: real)
    ensures BlendStep(Some(p), p, s) == p
  {
  }

  /** The blend is monotone non-decreasing in both the previous and the next
      value. */
  lemma BlendStepMonotone(p: real, p': real, n: real, n': real, s: real)
    requires s >= 0.0
    requires p <= p' && n <= n'
    ensures BlendStep(Some(p), n, s) <= BlendStep(Some(p'), n', s)
  {
    BlendStepIsClampAroundPrevious(p, n, s);
    BlendStepIsClampAroundPrevious(p', n', s);
  }
}
