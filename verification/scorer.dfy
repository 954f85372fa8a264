/** The backtest scorer: matches simulated alerts to ground-truth events
    with a 30-minute lead window and derives TP/FP/FN and the rates. */
module Scorer {
  import opened Wrappers
  import opened Events
  import opened Stats
  import opened Seqs

  /** A simulated alert: its timestamp (ms) and metric name. */
  datatype BtAlert = BtAlert(ts: int, metric: string)

  /** An alert this much before an event's start still counts for it. */
  const LeadWindowMs: int := 30 * 60 * 1000

  /** `intersects(alert, event)`: the event type is mapped, the alert has
      that metric, and it falls in [start - 30 min, end]. */
  predicate Intersects(a: BtAlert, ev: GtEvent)
    ensures EventMappedMetric(ev.eventType).None? ==> !Intersects(a, ev)
    ensures Intersects(a, ev) ==> a.metric == EventMappedMetric(ev.eventType).value
    ensures EventMappedMetric(ev.eventType) == Some(a.metric) ==>
      (Intersects(a, ev) <==> ev.startTs - LeadWindowMs <= a.ts <= ev.endTs)
  {
    match EventMappedMetric(ev.eventType)
    case None => false
    case Some(m) => a.metric == m && ev.startTs - LeadWindowMs <= a.ts && a.ts <= ev.endTs
  }

  /** The timestamp of the earliest alert matching an event (the first of
      the matches sorted by time), if any. */
  function EarliestMatchTs(alerts: seq<BtAlert>, ev: GtEvent): (r: Option<int>)
    ensures r.None? <==> forall i :: 0 <= i < |alerts| ==> !Intersects(alerts[i], ev)
    ensures r.Some? ==> exists i :: 0 <= i < |alerts| && Intersects(alerts[i], ev) && alerts[i].ts == r.value
    ensures r.Some? ==> forall i :: 0 <= i < |alerts| && Intersects(alerts[i], ev) ==> r.value <= alerts[i].ts
  {
    if |alerts| == 0 then None
    else
      var rest := EarliestMatchTs(alerts[1..], ev);
      assert forall i :: 1 <= i < |alerts| ==> alerts[i] == alerts[1..][i - 1];
      if !Intersects(alerts[0], ev) then rest
      else if rest.Some? && rest.value < alerts[0].ts then rest
      else Some(alerts[0].ts)
  }

  /** Some alert matches the event. */
  predicate Detected(alerts: seq<BtAlert>, ev: GtEvent) {
    exists i :: 0 <= i < |alerts| && Intersects(alerts[i], ev)
  }

  /** The positions of the events some alert matches. */
  ghost function DetectedIndices(events: seq<GtEvent>, alerts: seq<BtAlert>): set<int> {
    set k | 0 <= k < |events| && Detected(alerts, events[k])
  }

  /** Number of events with at least one matching alert. */
  function CountDetected(events: seq<GtEvent>, alerts: seq<BtAlert>): (n: nat)
    ensures n <= |events|
  {
    if |events| == 0 then 0
    else (if EarliestMatchTs(alerts, events[0]).Some? then 1 else 0) + CountDetected(events[1..], alerts)
  }

  /** Each detected event is one true positive, however many alerts match
      it: the count is the number of events some alert matches. */
  lemma {:induction false} DetectedCount(events: seq<GtEvent>, alerts: seq<BtAlert>)
    ensures CountDetected(events, alerts) == |DetectedIndices(events, alerts)|
    decreases |events|
  {
    if |events| == 0 {
      assert DetectedIndices(events, alerts) == {};
    } else {
      DetectedCount(events[1..], alerts);
      DetectedIndicesCons(events, alerts);
      ShiftCard(DetectedIndices(events[1..], alerts), |events| - 1);
    }
  }

  lemma {:induction false} DetectedIndicesCons(events: seq<GtEvent>, alerts: seq<BtAlert>)
    requires |events| > 0
    ensures DetectedIndices(events, alerts) ==
      (if Detected(alerts, events[0]) then {0} else {}) + Shift(DetectedIndices(events[1..], alerts))
    ensures 0 !in Shift(DetectedIndices(events[1..], alerts))
    ensures forall k :: k in DetectedIndices(events[1..], alerts) ==> 0 <= k < |events| - 1
  {
    var tail := DetectedIndices(events[1..], alerts);
    forall k ensures k in DetectedIndices(events, alerts) <==>
      k in (if Detected(alerts, events[0]) then {0} else {}) + Shift(tail)
    {
      if 0 < k < |events| {
        assert events[k] == events[1..][k - 1];
        assert k - 1 in tail <==> k in Shift(tail);
      }
    }
  }

  /** Number of events with no matching alert. */
  function CountMissed(events: seq<GtEvent>, alerts: seq<BtAlert>): (n: nat)
    ensures n + CountDetected(events, alerts) == |events|
  {
    if |events| == 0 then 0
    else (if EarliestMatchTs(alerts, events[0]).Some? then 0 else 1) + CountMissed(events[1..], alerts)
  }

  /** The lead time in minutes of a detected event: its start minus its
      earliest matching alert. */
  function LeadMinutes(alerts: seq<BtAlert>, ev: GtEvent): real
    requires EarliestMatchTs(alerts, ev).Some?
  {
    (ev.startTs - EarliestMatchTs(alerts, ev).value) as real / 60000.0
  }

  /** Lead times in minutes, one per detected event, each at most 30. */
  function LeadTimes(events: seq<GtEvent>, alerts: seq<BtAlert>): (leads: seq<real>)
    ensures |leads| == CountDetected(events, alerts)
    ensures forall i :: 0 <= i < |leads| ==> leads[i] <= 30.0
  {
    if |events| == 0 then []
    else
      var rest := LeadTimes(events[1..], alerts);
      match EarliestMatchTs(alerts, events[0])
      case None => rest
      case Some(t) =>
        LeadAtMostWindow(alerts, events[0]);
        [LeadMinutes(alerts, events[0])] + rest
  }

  /** The lead times follow the events' order: a detected event's lead
      sits after one lead per detected event before it, and is positive
      exactly when its earliest matching alert came before the event's
      start. */
  lemma {:induction false} LeadTimesAt(events: seq<GtEvent>, alerts: seq<BtAlert>, k: nat)
    requires k < |events| && EarliestMatchTs(alerts, events[k]).Some?
    ensures CountDetected(events[..k], alerts) < |LeadTimes(events, alerts)|
    ensures LeadTimes(events, alerts)[CountDetected(events[..k], alerts)] == LeadMinutes(alerts, events[k])
    ensures LeadMinutes(alerts, events[k]) > 0.0 <==> EarliestMatchTs(alerts, events[k]).value < events[k].startTs
    decreases k
  {
    var head := if EarliestMatchTs(alerts, events[0]).Some? then 1 else 0;
    if k > 0 {
      LeadTimesAt(events[1..], alerts, k - 1);
      assert events[1..][k - 1] == events[k];
      assert events[..k][1..] == events[1..][..k - 1];
      assert CountDetected(events[..k], alerts) == head + CountDetected(events[1..][..k - 1], alerts);
    } else {
      assert events[..k] == [];
    }
  }

  /** A matching alert is at most 30 minutes early. */
  lemma LeadAtMostWindow(alerts: seq<BtAlert>, ev: GtEvent)
    requires EarliestMatchTs(alerts, ev).Some?
    ensures (ev.startTs - EarliestMatchTs(alerts, ev).value) as real / 60000.0 <= 30.0
  {
    var t := EarliestMatchTs(alerts, ev).value;
    assert ev.startTs - t <= LeadWindowMs;
  }

  /** The alert intersects some event of `events`. */
  predicate MatchesAny(a: BtAlert, events: seq<GtEvent>) {
    exists j :: 0 <= j < |events| && Intersects(a, events[j])
  }

  /** The positions of the alerts that intersect no event. */
  ghost function UnmatchedIndices(alerts: seq<BtAlert>, events: seq<GtEvent>): set<int> {
    set i | 0 <= i < |alerts| && !MatchesAny(alerts[i], events)
  }

  /** Number of alerts that intersect no event of `events`. */
  function CountUnmatchedAlerts(alerts: seq<BtAlert>, events: seq<GtEvent>): (n: nat)
    ensures n <= |alerts|
  {
    if |alerts| == 0 then 0
    else (if MatchesAny(alerts[0], events) then 0 else 1) + CountUnmatchedAlerts(alerts[1..], events)
  }

  /** Each alert that intersects no event is one false positive: the count
      is the number of such alerts. */
  lemma {:induction false} UnmatchedCount(alerts: seq<BtAlert>, events: seq<GtEvent>)
    ensures CountUnmatchedAlerts(alerts, events) == |UnmatchedIndices(alerts, events)|
    decreases |alerts|
  {
    if |alerts| == 0 {
      assert UnmatchedIndices(alerts, events) == {};
    } else {
      UnmatchedCount(alerts[1..], events);
      UnmatchedIndicesCons(alerts, events);
      ShiftCard(UnmatchedIndices(alerts[1..], events), |alerts| - 1);
    }
  }

  lemma {:induction false} UnmatchedIndicesCons(alerts: seq<BtAlert>, events: seq<GtEvent>)
    requires |alerts| > 0
    ensures UnmatchedIndices(alerts, events) ==
      (if MatchesAny(alerts[0], events) then {} else {0}) + Shift(UnmatchedIndices(alerts[1..], events))
    ensures 0 !in Shift(UnmatchedIndices(alerts[1..], events))
    ensures forall i :: i in UnmatchedIndices(alerts[1..], events) ==> 0 <= i < |alerts| - 1
  {
    var tail := UnmatchedIndices(alerts[1..], events);
    forall i ensures i in UnmatchedIndices(alerts, events) <==>
      i in (if MatchesAny(alerts[0], events) then {} else {0}) + Shift(tail)
    {
      if 0 < i < |alerts| {
        assert alerts[i] == alerts[1..][i - 1];
        assert i - 1 in tail <==> i in Shift(tail);
      }
    }
  }

  datatype WindowLabel = StablePeriod | EventWindow | NoEventAlertWindow

  datatype ScoreResult = ScoreResult(
    tp: nat, fp: nat, fn: nat,
    precision: Option<real>, recall: Option<real>,
    falseAlertRate: real, missRate: real, leadTimeMin: real,
    alertsPerDay: real, windowLabel: WindowLabel,
    mappedEventCount: nat, ignoredEventCount: nat)

  /** `score({alerts, events, periodHours})`. The false-alert rate is taken
      over the alerts that are TP claims or FPs (tp + fp), not over all alerts. */
  function Score(alerts: seq<BtAlert>, events: seq<GtEvent>, periodHours: real): (r: ScoreResult)
    requires periodHours > 0.0
    ensures r.mappedEventCount == |MappedEvents(events)|
    ensures r.tp == CountDetected(MappedEvents(events), alerts)
    ensures r.fn == CountMissed(MappedEvents(events), alerts)
    ensures r.tp + r.fn == r.mappedEventCount
    ensures r.mappedEventCount + r.ignoredEventCount == |events|
    ensures r.fp == CountUnmatchedAlerts(alerts, MappedEvents(events)) && r.fp <= |alerts|
    ensures r.precision == RatioOrNull(r.tp, r.tp + r.fp)
    ensures r.recall == RatioOrNull(r.tp, r.tp + r.fn)
    ensures r.falseAlertRate == RatioOrZero(r.fp, r.tp + r.fp)
    ensures r.missRate == RatioOrZero(r.fn, r.tp + r.fn)
    ensures r.leadTimeMin == Mean(LeadTimes(MappedEvents(events), alerts)) && r.leadTimeMin <= 30.0
    ensures r.windowLabel == StablePeriod <==> |alerts| == 0 && r.mappedEventCount == 0
    ensures r.windowLabel == EventWindow <==> r.mappedEventCount > 0
    ensures r.alertsPerDay == AlertsPerDay(|alerts|, periodHours)
  {
    var mapped := MappedEvents(events);
    var leads := LeadTimes(mapped, alerts);
    MeanAtMost(leads, 30.0);
    Tabulate(CountDetected(mapped, alerts), CountUnmatchedAlerts(alerts, mapped), CountMissed(mapped, alerts),
             Mean(leads), |alerts|, |mapped|, |events|, periodHours)
  }

  /** A true positive is a mapped event some alert intersects, a false
      negative one no alert intersects, and a false positive an alert that
      intersects no mapped event. */
  lemma ScoreCounts(alerts: seq<BtAlert>, events: seq<GtEvent>, periodHours: real)
    requires periodHours > 0.0
    ensures var r := Score(alerts, events, periodHours);
      && r.tp == |DetectedIndices(MappedEvents(events), alerts)|
      && r.fn == |MappedEvents(events)| - |DetectedIndices(MappedEvents(events), alerts)|
      && r.fp == |UnmatchedIndices(alerts, MappedEvents(events))|
  {
    DetectedCount(MappedEvents(events), alerts);
    UnmatchedCount(alerts, MappedEvents(events));
  }

  /** The result record from the counts; the label says whether there were
      alerts and mapped events at all. */
  function Tabulate(tp: nat, fp: nat, fn: nat, leadTimeMin: real, alertCount: nat, mappedCount: nat,
                    eventCount: nat, periodHours: real): (r: ScoreResult)
    requires periodHours > 0.0 && mappedCount <= eventCount
    ensures r.tp == tp && r.fp == fp && r.fn == fn && r.leadTimeMin == leadTimeMin
    ensures r.mappedEventCount == mappedCount && r.ignoredEventCount == eventCount - mappedCount
    ensures r.precision == RatioOrNull(tp, tp + fp) && r.recall == RatioOrNull(tp, tp + fn)
    ensures r.falseAlertRate == RatioOrZero(fp, tp + fp) && r.missRate == RatioOrZero(fn, tp + fn)
    ensures r.windowLabel == StablePeriod <==> alertCount == 0 && mappedCount == 0
    ensures r.windowLabel == EventWindow <==> mappedCount > 0
    ensures r.alertsPerDay == AlertsPerDay(alertCount, periodHours)
  {
    var windowLabel :=
      if alertCount == 0 && mappedCount == 0 then StablePeriod
      else if mappedCount > 0 then EventWindow
      else NoEventAlertWindow;
    ScoreResult(tp, fp, fn, RatioOrNull(tp, tp + fp), RatioOrNull(tp, tp + fn),
                RatioOrZero(fp, tp + fp), RatioOrZero(fn, tp + fn), leadTimeMin,
                AlertsPerDay(alertCount, periodHours), windowLabel, mappedCount, eventCount - mappedCount)
  }

  /** Alerts per day over a period of `periodHours`. */
  function AlertsPerDay(count: nat, periodHours: real): (r: real)
    requires periodHours > 0.0
    ensures r * (periodHours / 24.0) == count as real
    ensures r >= 0.0
  {
    RatioInUnit(0.0, periodHours / 24.0);
    DivMonotone(0.0, count as real, periodHours / 24.0);
    count as real / (periodHours / 24.0)
  }

  /** The derived rates: null precision exactly when nothing was claimed,
      null recall exactly when no mapped event exists, all rates within
      [0, 1], precision and false-alert rate complementary, recall and miss
      rate complementary. */
  lemma ScoreRates(alerts: seq<BtAlert>, events: seq<GtEvent>, periodHours: real)
    requires periodHours > 0.0
    ensures var r := Score(alerts, events, periodHours);
      && (r.precision.None? <==> r.tp + r.fp == 0)
      && (r.recall.None? <==> r.tp + r.fn == 0)
      && (r.precision.Some? ==> 0.0 <= r.precision.value <= 1.0
                                && r.precision.value + r.falseAlertRate == 1.0)
      && (r.recall.Some? ==> 0.0 <= r.recall.value <= 1.0
                             && r.recall.value + r.missRate == 1.0)
      && 0.0 <= r.falseAlertRate <= 1.0 && 0.0 <= r.missRate <= 1.0
  {
    var r := Score(alerts, events, periodHours);
    assert r.precision == RatioOrNull(r.tp, r.tp + r.fp) && r.falseAlertRate == RatioOrZero(r.fp, r.tp + r.fp);
    assert r.recall == RatioOrNull(r.tp, r.tp + r.fn) && r.missRate == RatioOrZero(r.fn, r.tp + r.fn);
    RatePair(r.tp, r.fp);
    RatePair(r.tp, r.fn);
  }

  /** A share a / (a + b) and its complement b / (a + b), as the scorer
      reports them. */
  lemma RatePair(a: nat, b: nat)
    ensures RatioOrNull(a, a + b).None? <==> a + b == 0
    ensures RatioOrNull(a, a + b).Some? ==>
      0.0 <= RatioOrNull(a, a + b).value <= 1.0 && RatioOrNull(a, a + b).value + RatioOrZero(b, a + b) == 1.0
    ensures 0.0 <= RatioOrZero(b, a + b) <= 1.0
  {
    if a + b > 0 { ComplementaryShares(a, b); }
  }
}
