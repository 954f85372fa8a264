/** The periodic dynamic-threshold recompute: for each farm with enough
    recent rows, and for each metric, a rolling-quantile band widened by a
    margin, clamped to the safety bounds, repaired if it crosses, and moved
    at most a bounded step away from the previously stored snapshot. */
module DynamicEngine {
  import opened Wrappers
  import opened Metrics
  import opened SafetyLayer
  import opened Quantiles

  /** Length of the rolling window the caller reads, in hours. */
  const WindowHours: int := 24
  const QLow: real := 0.15
  const QHigh: real := 0.85
  /** Fewer rows than this in the window and the farm is skipped. */
  const MinRows: int := 20
  /** Largest move of a stored bound per recompute. */
  const MaxStep: real := 2.0

  /** `BAND_MARGIN`: how far the band is widened beyond the quantiles. */
  function BandMargin(m: Metric): (margin: real)
    ensures margin >= 0.0
  {
    match m
    case TempF => 1.0
    case RhPct => 2.0
    case SoilMoisturePct => 1.5
  }

  /** The column of one metric over the window's rows. */
  function Column(rows: seq<Reading>, m: Metric): (values: seq<real>)
    ensures |values| == |rows|
    ensures forall i :: 0 <= i < |rows| ==> values[i] == rows[i].Value(m)
  {
    if |rows| == 0 then [] else [rows[0].Value(m)] + Column(rows[1..], m)
  }

  /** Quantiles widened by the margin, each clamped to the safety bounds. */
  function ClampedBand(values: seq<real>, m: Metric): (b: Band)
    requires |values| > 0
    ensures WithinSafety(b, m)
  {
    var bounds := SafetyBounds(m);
    QuantileMonotone(values, QLow, QHigh);
    var lowCandidate := Quantile(values, QLow).value;
    var highCandidate := Quantile(values, QHigh).value;
    var low := Clamp(lowCandidate - BandMargin(m), bounds.low, bounds.high);
    var high := Clamp(highCandidate + BandMargin(m), bounds.low, bounds.high);
    ClampMonotone(lowCandidate - BandMargin(m), highCandidate + BandMargin(m), bounds.low, bounds.high);
    Band(low, high)
  }

  /** The crossing repair: a band with low > high is replaced by the band of
      width 2 centred on its midpoint. */
  function RepairCrossing(b: Band): (r: Band)
    ensures r.low <= r.high
    ensures b.low <= b.high ==> r == b
    ensures b.low > b.high ==> r.high - r.low == 2.0 && r.low + r.high == b.low + b.high
  {
    if b.low > b.high then
      var mid := (b.low + b.high) / 2.0;
      Band(mid - 1.0, mid + 1.0)
    else b
  }

  /** Because QLow <= QHigh and the margins are non-negative, the clamped
      band never crosses, so the repair never changes it. */
  lemma CrossingRepairNeverFires(values: seq<real>, m: Metric)
    requires |values| > 0
    ensures RepairCrossing(ClampedBand(values, m)) == ClampedBand(values, m)
  {
  }

  /** The bounded-step blend of each bound with the previous snapshot, if any. */
  function BlendWithPrevious(candidate: Band, previous: Option<Band>): (b: Band)
    ensures previous.None? ==> b == candidate
    ensures previous.Some? ==>
      Abs(b.low - previous.value.low) <= MaxStep && Abs(b.high - previous.value.high) <= MaxStep
  {
    match previous
    case None => candidate
    case Some(p) =>
      Band(BlendStep(Some(p.low), candidate.low, MaxStep), BlendStep(Some(p.high), candidate.high, MaxStep))
  }

  /** The band stored for one metric of one farm. */
  function RecomputeMetric(values: seq<real>, m: Metric, previous: Option<Band>): (b: Band)
    requires |values| > 0
    ensures previous.None? ==> b == ClampedBand(values, m)
    ensures previous.Some? ==>
      Abs(b.low - previous.value.low) <= MaxStep && Abs(b.high - previous.value.high) <= MaxStep
    ensures previous.None? ==> WithinSafety(b, m)
  {
    BlendWithPrevious(RepairCrossing(ClampedBand(values, m)), previous)
  }

  /** A previous snapshot that was ordered and within the safety bounds stays
      so after the blend. */
  lemma RecomputePreservesSafety(values: seq<real>, m: Metric, previous: Band)
    requires |values| > 0
    requires WithinSafety(previous, m)
    ensures WithinSafety(RecomputeMetric(values, m, Some(previous)), m)
  {
    var c := ClampedBand(values, m);
    BlendStepMonotone(previous.low, previous.high, c.low, c.high, MaxStep);
  }

  /** One row written to the dynamic threshold store. */
  datatype DynamicRow = DynamicRow(metric: Metric, low: real, high: real, windowHours: int, updatedAt: int)

  /** The writes for one farm: nothing when its window holds fewer than
      `MinRows` rows, otherwise one row per metric. `previous` is the latest
      stored band per metric. */
  function RecomputeFarm(rows: seq<Reading>, previous: map<Metric, Band>, now: int): (written: seq<DynamicRow>)
    ensures |rows| < MinRows ==> written == []
    ensures |rows| >= MinRows ==> |written| == |AllMetrics|
    ensures forall i :: 0 <= i < |written| ==>
      && written[i].metric == AllMetrics[i]
      && written[i].updatedAt == now
      && written[i].windowHours == WindowHours
      && (AllMetrics[i] !in previous ==>
            Band(written[i].low, written[i].high) == ClampedBand(Column(rows, AllMetrics[i]), AllMetrics[i]))
      && (AllMetrics[i] in previous ==>
            Abs(written[i].low - previous[AllMetrics[i]].low) <= MaxStep &&
            Abs(written[i].high - previous[AllMetrics[i]].high) <= MaxStep)
  {
    if |rows| < MinRows then []
    else
      seq(|AllMetrics|, i requires 0 <= i < |AllMetrics| =>
        var m := AllMetrics[i];
        var b := RecomputeMetric(Column(rows, m), m, if m in previous then Some(previous[m]) else None);
        DynamicRow(m, b.low, b.high, WindowHours, now))
  }

  /** When every previous snapshot is ordered and safe, every written band is. */
  lemma RecomputeFarmSafe(rows: seq<Reading>, previous: map<Metric, Band>, now: int)
    requires forall m :: m in previous ==> WithinSafety(previous[m], m)
    ensures forall r :: r in RecomputeFarm(rows, previous, now) ==>
      WithinSafety(Band(r.low, r.high), r.metric)
  {
    var written := RecomputeFarm(rows, previous, now);
    forall r | r in written
      ensures WithinSafety(Band(r.low, r.high), r.metric)
    {
      var i :| 0 <= i < |written| && written[i] == r;
      var m := AllMetrics[i];
      var values := Column(rows, m);
      if m in previous {
        RecomputePreservesSafety(values, m, previous[m]);
      }
    }
  }
}
