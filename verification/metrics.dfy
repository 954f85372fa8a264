/** The sensor metrics, readings and threshold bands shared by every engine. */
module Metrics {
  import opened Wrappers

  /** The three metrics that carry thresholds and alerts. */
  datatype Metric = TempF | RhPct | SoilMoisturePct {

    /** The column / map key the source uses for this metric. */
    function Name(): string {
      match this
      case TempF => "temp_f"
      case RhPct => "rh_pct"
      case SoilMoisturePct => "soil_moisture_pct"
    }
  }

  /** The metrics in the order the engines visit them. */
  const AllMetrics: seq<Metric> := [TempF, RhPct, SoilMoisturePct]

  /** One telemetry row: timestamp in milliseconds and the sensor values. */
  datatype Reading = Reading(ts: int, tempF: real, rhPct: real, soilMoisturePct: real)
  {
    /** The value of one metric (`reading[metric]` in the source). */
    function Value(m: Metric): real {
      match m
      case TempF => tempF
      case RhPct => rhPct
      case SoilMoisturePct => soilMoisturePct
    }
  }

  /** A band whose both bounds are present (dynamic bands, safety bounds). */
  datatype Band = Band(low: real, high: real)

  /** A stored threshold row; either bound may be NULL. */
  datatype Threshold = Threshold(low: Option<real>, high: Option<real>)

  /** A dynamic band seen as a threshold with both bounds present. */
  function AsThreshold(b: Band): Threshold {
    Threshold(Some(b.low), Some(b.high))
  }

  /** `compareAgainstThreshold`: a breach is a value below a present low
      bound or above a present high bound; an absent threshold never breaches. */
  function IsBreach(value: real, threshold: Option<Threshold>): (breach: bool)
    ensures threshold.None? ==> !breach
    ensures threshold.Some? ==>
      (breach <==>
         (threshold.value.low.Some? && value < threshold.value.low.value) ||
         (threshold.value.high.Some? && value > threshold.value.high.value))
  {
    match threshold
    case None => false
    case Some(t) =>
      if t.low.Some? && value < t.low.value then true
      else if t.high.Some? && value > t.high.value then true
      else false
  }

  /** A value inside a fully present band never breaches it, and a value
      outside it always does. */
  lemma BreachIffOutsideBand(value: real, b: Band)
    ensures IsBreach(value, Some(AsThreshold(b))) <==> !(b.low <= value <= b.high)
  {
  }
}
