/** Ground-truth events and the fixed event-type to metric mapping used to
    score alerts against them. */
module Events {
  import opened Wrappers
  import opened Metrics

  /** A labelled anomaly window, timestamps in milliseconds. */
  datatype GtEvent = GtEvent(startTs: int, endTs: int, eventType: string)

  /** `EVENT_METRIC_MAP` / `EVENT_TO_METRIC`: each known event type maps to
      exactly one metric. */
  const EventMetricMap: map<string, string> := map[
    "heat_stress" := TempF.Name(),
    "cold_shock" := TempF.Name(),
    "humidity_anomaly" := RhPct.Name(),
    "irrigation_failure" := SoilMoisturePct.Name(),
    "recovery_event" := SoilMoisturePct.Name()
  ]

  /** `eventMappedMetric`: the metric an event type is scored against, or
      None for an unmapped type. */
  function EventMappedMetric(eventType: string): (r: Option<string>)
    ensures r.Some? ==> exists m: Metric :: r.value == m.Name()
    ensures r.Some? <==> eventType in {"heat_stress", "cold_shock", "humidity_anomaly",
                                       "irrigation_failure", "recovery_event"}
  {
    if eventType in EventMetricMap then
      var m := EventMetricMap[eventType];
      assert m == TempF.Name() || m == RhPct.Name() || m == SoilMoisturePct.Name();
      Some(m)
    else None
  }

  ghost predicate IsMapped(ev: GtEvent) {
    EventMappedMetric(ev.eventType).Some?
  }

  /** The mapped events, in input order (`events.filter(mapped)`). */
  function MappedEvents(events: seq<GtEvent>): (r: seq<GtEvent>)
    ensures |r| <= |events|
    ensures forall e :: e in r <==> e in events && EventMappedMetric(e.eventType).Some?
  {
    if |events| == 0 then []
    else if EventMappedMetric(events[0].eventType).Some? then [events[0]] + MappedEvents(events[1..])
    else MappedEvents(events[1..])
  }

  /** Every mapped event is kept as often as it occurs in the input, and
      every unmapped one is dropped. */
  lemma {:induction false} MappedEventsCounts(events: seq<GtEvent>, e: GtEvent)
    ensures multiset(MappedEvents(events))[e] ==
      if EventMappedMetric(e.eventType).Some? then multiset(events)[e] else 0
    decreases |events|
  {
    if |events| > 0 {
      MappedEventsCounts(events[1..], e);
      assert events == [events[0]] + events[1..];
    }
  }

  /** Filtering distributes over concatenation, so the mapped events keep
      the input's order. */
  lemma {:induction false} MappedEventsAppend(a: seq<GtEvent>, b: seq<GtEvent>)
    ensures MappedEvents(a + b) == MappedEvents(a) + MappedEvents(b)
    decreases |a|
  {
    if |a| > 0 {
      assert (a + b)[0] == a[0];
      assert (a + b)[1..] == a[1..] + b;
      MappedEventsAppend(a[1..], b);
    } else {
      assert a + b == b;
    }
  }
}
