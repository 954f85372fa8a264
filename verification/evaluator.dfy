/** The stored-alert evaluator: matches alerts to ground-truth events with
    no lead window, counts false positives by alert id, and derives the
    rates with the false-alert rate taken over all alerts. */
module Evaluator {
  import opened Wrappers
  import opened Events
  import opened Stats
  import opened Seqs

  /** A stored alert (id, timestamp in ms, metric). */
  datatype EvAlert = EvAlert(id: int, ts: int, metric: string)

  /** An alert matches an event when it has the event's mapped metric and
      lies in [start, end]: no lead window. */
  predicate Matches(a: EvAlert, ev: GtEvent)
    ensures Matches(a, ev) ==> ev.startTs <= a.ts <= ev.endTs
    ensures Matches(a, ev) ==> EventMappedMetric(ev.eventType) == Some(a.metric)
  {
    match EventMappedMetric(ev.eventType)
    case None => false
    case Some(m) => a.metric == m && ev.startTs <= a.ts && a.ts <= ev.endTs
  }

  /** The earliest matching alert's timestamp, if any. */
  function EarliestMatchTs(alerts: seq<EvAlert>, ev: GtEvent): (r: Option<int>)
    ensures r.None? <==> forall i :: 0 <= i < |alerts| ==> !Matches(alerts[i], ev)
    ensures r.Some? ==> exists i :: 0 <= i < |alerts| && Matches(alerts[i], ev) && alerts[i].ts == r.value
    ensures r.Some? ==> forall i :: 0 <= i < |alerts| && Matches(alerts[i], ev) ==> r.value <= alerts[i].ts
    ensures r.Some? ==> ev.startTs <= r.value <= ev.endTs
    ensures r.Some? ==> EventMappedMetric(ev.eventType).Some?
  {
    if |alerts| == 0 then None
    else
      var rest := EarliestMatchTs(alerts[1..], ev);
      assert forall i :: 1 <= i < |alerts| ==> alerts[i] == alerts[1..][i - 1];
      if !Matches(alerts[0], ev) then rest
      else if rest.Some? && rest.value < alerts[0].ts then rest
      else Some(alerts[0].ts)
  }

  /** Some alert matches the event (so the event is mapped). */
  predicate Detected(alerts: seq<EvAlert>, ev: GtEvent) {
    exists i :: 0 <= i < |alerts| && Matches(alerts[i], ev)
  }

  /** The positions of the events some alert matches. */
  ghost function DetectedIndices(events: seq<GtEvent>, alerts: seq<EvAlert>): set<int> {
    set k | 0 <= k < |events| && Detected(alerts, events[k])
  }

  /** The minutes from a detected event's start to its earliest matching
      alert. */
  function LeadMinutes(alerts: seq<EvAlert>, ev: GtEvent): real
    requires EarliestMatchTs(alerts, ev).Some?
  {
    (EarliestMatchTs(alerts, ev).value - ev.startTs) as real / 60000.0
  }

  /** Tally over the events in order: (tp, fn, lead times). Unmapped events
      are skipped; a matched event adds one tp and the minutes from its start
      to its earliest alert, an unmatched mapped event one fn. */
  function Tally(events: seq<GtEvent>, alerts: seq<EvAlert>): (r: (nat, nat, seq<real>))
    ensures |r.2| == r.0
    ensures forall i :: 0 <= i < |r.2| ==> r.2[i] >= 0.0
  {
    if |events| == 0 then (0, 0, [])
    else
      var rest := Tally(events[1..], alerts);
      var ev := events[0];
      if EventMappedMetric(ev.eventType).None? then rest
      else
        match EarliestMatchTs(alerts, ev)
        case None => (rest.0, rest.1 + 1, rest.2)
        case Some(t) => (rest.0 + 1, rest.1, [LeadMinutes(alerts, ev)] + rest.2)
  }

  /** Unmapped events are neither tp nor fn: every mapped event is exactly
      one of the two. */
  lemma {:induction false} TallyCoversMapped(events: seq<GtEvent>, alerts: seq<EvAlert>)
    ensures Tally(events, alerts).0 + Tally(events, alerts).1 == |MappedEvents(events)|
    decreases |events|
  {
    if |events| > 0 {
      TallyCoversMapped(events[1..], alerts);
      TallyCons(events, alerts);
    }
  }

  /** An event is detected exactly when it has an earliest matching alert. */
  lemma {:induction false} DetectedIffMatched(alerts: seq<EvAlert>, ev: GtEvent)
    ensures Detected(alerts, ev) <==> EarliestMatchTs(alerts, ev).Some?
    ensures Detected(alerts, ev) ==> EventMappedMetric(ev.eventType).Some?
  {
  }

  /** The tally of a non-empty list is the first event's share added to
      the tally of the rest. */
  lemma {:induction false} TallyCons(events: seq<GtEvent>, alerts: seq<EvAlert>)
    requires |events| > 0
    ensures var rest := Tally(events[1..], alerts);
      Tally(events, alerts) ==
        if EarliestMatchTs(alerts, events[0]).Some? then (rest.0 + 1, rest.1, [LeadMinutes(alerts, events[0])] + rest.2)
        else if EventMappedMetric(events[0].eventType).Some? then (rest.0, rest.1 + 1, rest.2)
        else rest
  {
    var ev := events[0];
    if EventMappedMetric(ev.eventType).Some? {
      match EarliestMatchTs(alerts, ev)
      case None =>
      case Some(t) =>
    }
  }

  /** One true positive per event some alert matches, however many do. */
  lemma {:induction false} TallyCountsDetected(events: seq<GtEvent>, alerts: seq<EvAlert>)
    ensures Tally(events, alerts).0 == |DetectedIndices(events, alerts)|
    decreases |events|
  {
    if |events| == 0 {
      assert DetectedIndices(events, alerts) == {};
    } else {
      TallyCountsDetected(events[1..], alerts);
      TallyCons(events, alerts);
      DetectedIffMatched(alerts, events[0]);
      DetectedIndicesCons(events, alerts);
      ShiftCard(DetectedIndices(events[1..], alerts), |events| - 1);
    }
  }

  lemma {:induction false} DetectedIndicesCons(events: seq<GtEvent>, alerts: seq<EvAlert>)
    requires |events| > 0
    ensures DetectedIndices(events, alerts) ==
      (if Detected(alerts, events[0]) then {0} else {}) + Shift(DetectedIndices(events[1..], alerts))
    ensures 0 !in Shift(DetectedIndices(events[1..], alerts))
    ensures forall k :: k in DetectedIndices(events[1..], alerts) ==> 0 <= k < |events| - 1
  {
    var tail := DetectedIndices(events[1..], alerts);
    forall k ensures k in DetectedIndices(events, alerts) <==>
      k in (if Detected(alerts, events[0]) then {0} else {}) + Shift(tail)
    {
      if 0 < k < |events| {
        assert events[k] == events[1..][k - 1];
        assert k - 1 in tail <==> k in Shift(tail);
      }
    }
  }

  /** Tallying a concatenation adds up the tallies of its parts and keeps
      the lead times in event order. */
  lemma {:induction false} TallyAppend(a: seq<GtEvent>, b: seq<GtEvent>, alerts: seq<EvAlert>)
    ensures Tally(a + b, alerts).0 == Tally(a, alerts).0 + Tally(b, alerts).0
    ensures Tally(a + b, alerts).1 == Tally(a, alerts).1 + Tally(b, alerts).1
    ensures Tally(a + b, alerts).2 == Tally(a, alerts).2 + Tally(b, alerts).2
    decreases |a|
  {
    if |a| == 0 {
      assert a + b == b;
    } else {
      TallyAppend(a[1..], b, alerts);
      assert (a + b)[1..] == a[1..] + b;
      assert (a + b)[0] == a[0];
      TallyCons(a + b, alerts);
      TallyCons(a, alerts);
      if EarliestMatchTs(alerts, a[0]).Some? {
        AppendAssoc([LeadMinutes(alerts, a[0])], Tally(a[1..], alerts).2, Tally(b, alerts).2);
      }
    }
  }

  /** The lead times follow the events' order: a detected event's lead
      sits after one lead per detected event before it. */
  lemma TallyLeadAt(events: seq<GtEvent>, alerts: seq<EvAlert>, k: nat)
    requires k < |events| && EarliestMatchTs(alerts, events[k]).Some?
    ensures Tally(events[..k], alerts).0 < |Tally(events, alerts).2|
    ensures Tally(events, alerts).2[Tally(events[..k], alerts).0] == LeadMinutes(alerts, events[k])
  {
    assert events == events[..k] + events[k..];
    TallyAppend(events[..k], events[k..], alerts);
    TallyCons(events[k..], alerts);
    assert events[k..][0] == events[k];
  }

  /** The ids of alerts that match some event. */
  function UsedIds(events: seq<GtEvent>, alerts: seq<EvAlert>): (used: set<int>)
    ensures forall id :: id in used <==>
      exists i, j :: 0 <= i < |alerts| && 0 <= j < |events| && alerts[i].id == id && Matches(alerts[i], events[j])
  {
    set i, j | 0 <= i < |alerts| && 0 <= j < |events| && Matches(alerts[i], events[j]) :: alerts[i].id
  }

  /** Alerts whose id is not among the used ids. */
  function CountUnused(alerts: seq<EvAlert>, used: set<int>): (n: nat)
    ensures n <= |alerts|
  {
    if |alerts| == 0 then 0
    else (if alerts[0].id in used then 0 else 1) + CountUnused(alerts[1..], used)
  }

  datatype EvalResult = EvalResult(
    tp: nat, fp: nat, fn: nat,
    precision: Option<real>, recall: Option<real>,
    falseAlertRate: real, missRate: real, leadTimeMin: real, alertsPerDay: real)

  /** The matching and metric block of `evaluateExperiment` over the loaded
      events and alerts of one farm and window. */
  function Evaluate(events: seq<GtEvent>, alerts: seq<EvAlert>, lookbackHours: real): (r: EvalResult)
    ensures r.tp + r.fn == |MappedEvents(events)|
    ensures r.fp <= |alerts|
    ensures r.precision == RatioOrNull(r.tp, r.tp + r.fp)
    ensures r.recall == RatioOrNull(r.tp, r.tp + r.fn)
    ensures r.falseAlertRate == RatioOrZero(r.fp, |alerts|)
    ensures 0.0 <= r.falseAlertRate <= 1.0
    ensures r.missRate == RatioOrZero(r.fn, r.tp + r.fn)
    ensures r.leadTimeMin == Mean(Tally(events, alerts).2) && r.leadTimeMin >= 0.0
    ensures r.alertsPerDay == AlertsPerDay(|alerts|, lookbackHours)
  {
    var tally := Tally(events, alerts);
    var fp := CountUnused(alerts, UsedIds(events, alerts));
    TallyCoversMapped(events, alerts);
    MeanAtLeastZero(tally.2);
    EvalResult(tally.0, fp, tally.1,
               RatioOrNull(tally.0, tally.0 + fp), RatioOrNull(tally.0, tally.0 + tally.1),
               RatioOrZero(fp, |alerts|), RatioOrZero(tally.1, tally.0 + tally.1), Mean(tally.2),
               AlertsPerDay(|alerts|, lookbackHours))
  }

  /** Alerts per day over the look-back window, the window counted as at
      least one day: a window of a day or less reports the plain count. */
  function AlertsPerDay(count: nat, lookbackHours: real): (r: real)
    ensures lookbackHours <= 24.0 ==> r == count as real
    ensures lookbackHours > 24.0 ==> r * (lookbackHours / 24.0) == count as real
    ensures 0.0 <= r <= count as real
  {
    var days := if lookbackHours / 24.0 > 1.0 then lookbackHours / 24.0 else 1.0;
    RatioInUnit(0.0, days);
    DivMonotone(count as real, count as real * days, days);
    assert count as real * days / days == count as real;
    count as real / days
  }

  /** One true positive per event some alert matches, however many do. */
  lemma EvaluateCountsDetected(events: seq<GtEvent>, alerts: seq<EvAlert>, lookbackHours: real)
    ensures Evaluate(events, alerts, lookbackHours).tp == |DetectedIndices(events, alerts)|
  {
    TallyCountsDetected(events, alerts);
  }

  lemma MeanAtLeastZero(xs: seq<real>)
    requires forall i :: 0 <= i < |xs| ==> xs[i] >= 0.0
    ensures Mean(xs) >= 0.0
  {
    if |xs| > 0 {
      MeanBounds(xs, 0.0, Max0(xs));
    }
  }

  function Max0(xs: seq<real>): (m: real)
    ensures forall i :: 0 <= i < |xs| ==> xs[i] <= m
  {
    if |xs| == 0 then 0.0
    else
      var rest := Max0(xs[1..]);
      assert forall i :: 1 <= i < |xs| ==> xs[i] == xs[1..][i - 1];
      if xs[0] > rest then xs[0] else rest
  }

  ghost predicate DistinctIds(alerts: seq<EvAlert>) {
    forall i, j :: 0 <= i < j < |alerts| ==> alerts[i].id != alerts[j].id
  }

  /** Alerts that match no event of `events`. */
  function CountMatchingNone(alerts: seq<EvAlert>, events: seq<GtEvent>): nat {
    if |alerts| == 0 then 0
    else (if exists j :: 0 <= j < |events| && Matches(alerts[0], events[j]) then 0 else 1)
         + CountMatchingNone(alerts[1..], events)
  }

  /** With distinct alert ids (as the store assigns them), fp is the number
      of alerts that match no event. */
  lemma FalsePositivesAreUnmatchedAlerts(events: seq<GtEvent>, alerts: seq<EvAlert>, lookbackHours: real)
    requires DistinctIds(alerts)
    ensures Evaluate(events, alerts, lookbackHours).fp == CountMatchingNone(alerts, events)
  {
    UnusedIsUnmatched(0, events, alerts);
    assert alerts[0..] == alerts;
  }

  lemma {:induction false} UnusedIsUnmatched(k: nat, events: seq<GtEvent>, alerts: seq<EvAlert>)
    requires DistinctIds(alerts)
    requires k <= |alerts|
    ensures CountUnused(alerts[k..], UsedIds(events, alerts)) == CountMatchingNone(alerts[k..], events)
    decreases |alerts| - k
  {
    if k < |alerts| {
      UnusedIsUnmatched(k + 1, events, alerts);
      assert alerts[k..][1..] == alerts[k + 1..];
      var a := alerts[k];
      var used := UsedIds(events, alerts);
      if a.id in used {
        var i, j :| 0 <= i < |alerts| && 0 <= j < |events| && alerts[i].id == a.id && Matches(alerts[i], events[j]);
        assert i == k;
      } else {
        assert forall j :: 0 <= j < |events| && Matches(a, events[j]) ==> a.id in used;
      }
    }
  }
}
