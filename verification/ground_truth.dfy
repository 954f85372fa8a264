/** The ground-truth synthesizer: five labelled anomaly windows placed in
    the second part of a farm's reading history, at the coldest, hottest
    and most humid readings, the steepest 2-4 hour soil-moisture fall and
    the largest soil-moisture jump after it, then made non-overlapping
    inside the history's time span. */
module GroundTruth {
  import opened Wrappers
  import opened Metrics
  import opened Sorting
  import opened Events

  const MinuteMs: int := 60000

  /** `clampIndex(i, n)`: the nearest valid index of an n-element array,
      or 0 when there is none. */
  function ClampIndex(i: int, n: int): (r: int)
    ensures n <= 0 ==> r == 0
    ensures n > 0 ==> 0 <= r < n
    ensures n > 0 && 0 <= i < n ==> r == i
    ensures n > 0 && i < 0 ==> r == 0
    ensures n > 0 && i >= n ==> r == n - 1
  {
    if n <= 0 then 0
    else
      var upper := if n - 1 < i then n - 1 else i;
      if upper < 0 then 0 else upper
  }

  /** `Math.round`: half-way cases round up. */
  function Round(x: real): (r: int)
    ensures r as real - 0.5 <= x < r as real + 0.5
  {
    (x + 0.5).Floor
  }

  function MaxInt(a: int, b: int): int { if a < b then b else a }
  function MinInt(a: int, b: int): int { if a < b then a else b }

  /** The gaps between consecutive readings, in minutes. */
  function Gaps(readings: seq<Reading>): (gaps: seq<real>)
    requires |readings| >= 1
    ensures |gaps| == |readings| - 1
    ensures forall k :: 0 <= k < |gaps| ==> gaps[k] == (readings[k + 1].ts - readings[k].ts) as real / MinuteMs as real
    decreases |readings|
  {
    if |readings| == 1 then []
    else [(readings[1].ts - readings[0].ts) as real / MinuteMs as real] + Gaps(readings[1..])
  }

  /** `medianMinutes(readings)`: the upper median gap between consecutive
      readings, in minutes, with 10 when there are fewer than two readings
      or the median is zero, and never below 1. */
  function MedianMinutes(readings: seq<Reading>): (step: real)
    ensures step >= 1.0
    ensures |readings| < 2 ==> step == 10.0
    ensures |readings| >= 2 && step != 10.0 && step != 1.0 ==> step in Gaps(readings)
  {
    if |readings| < 2 then 10.0
    else
      var sorted := SortReals(Gaps(readings));
      var middle := sorted[|sorted| / 2];
      assert middle in multiset(sorted);
      var median := if middle == 0.0 then 10.0 else middle;
      if median < 1.0 then 1.0 else median
  }

  /** With evenly spaced readings `step` minutes apart, `step >= 1`, the
      median gap is that step. */
  lemma EvenSpacingMedian(readings: seq<Reading>, step: real)
    requires |readings| >= 2
    requires step >= 1.0
    requires forall k :: 0 <= k < |readings| - 1 ==> (readings[k + 1].ts - readings[k].ts) as real == step * MinuteMs as real
    ensures MedianMinutes(readings) == step
  {
    var gaps := Gaps(readings);
    forall k | 0 <= k < |gaps| ensures gaps[k] == step {
      GapOfEvenStep(readings[k + 1].ts - readings[k].ts, step);
    }
    var sorted := SortReals(gaps);
    var middle := sorted[|sorted| / 2];
    assert middle in multiset(gaps) by {
      assert middle in multiset(sorted);
    }
    assert middle == step;
  }

  lemma GapOfEvenStep(diff: int, step: real)
    requires diff as real == step * MinuteMs as real
    ensures diff as real / MinuteMs as real == step
  {
  }

  /** The median step depends only on the gaps, not on their order. */
  lemma MedianDependsOnGapMultiset(a: seq<Reading>, b: seq<Reading>)
    requires |a| >= 2 && |b| >= 2
    requires multiset(Gaps(a)) == multiset(Gaps(b))
    ensures MedianMinutes(a) == MedianMinutes(b)
  {
    SortRealsPermutationInvariant(Gaps(a), Gaps(b));
  }

  /** `findMinMetricIndex(readings, metric, startIdx, endIdx)`: the earliest
      index of a smallest value of `m` over the clamped range. */
  method FindMinMetricIndex(readings: seq<Reading>, m: Metric, startIdx: int, endIdx: int) returns (best: int)
    ensures |readings| == 0 ==> best == 0
    ensures |readings| > 0 ==>
      var lo := ClampIndex(startIdx, |readings|);
      var hi := ClampIndex(endIdx, |readings|);
      && lo <= best <= MaxInt(lo, hi)
      && (forall k :: lo <= k <= hi ==> readings[best].Value(m) <= readings[k].Value(m))
      && (forall k :: lo <= k < best ==> readings[k].Value(m) > readings[best].Value(m))
  {
    best := ClampIndex(startIdx, |readings|);
    var end := ClampIndex(endIdx, |readings|);
    var i := best + 1;
    while i <= end
      invariant |readings| > 0 ==> ClampIndex(startIdx, |readings|) <= best < i
      invariant |readings| > 0 ==> i - 1 <= MaxInt(ClampIndex(startIdx, |readings|), end)
      invariant |readings| == 0 ==> best == 0 && end == 0
      invariant |readings| > 0 ==> forall k :: ClampIndex(startIdx, |readings|) <= k < i ==> readings[best].Value(m) <= readings[k].Value(m)
      invariant |readings| > 0 ==> forall k :: ClampIndex(startIdx, |readings|) <= k < best ==> readings[k].Value(m) > readings[best].Value(m)
    {
      if readings[i].Value(m) < readings[best].Value(m) {
        best := i;
      }
      i := i + 1;
    }
  }

  /** `findMaxMetricIndex(readings, metric, startIdx, endIdx)`: the earliest
      index of a largest value of `m` over the clamped range. */
  method FindMaxMetricIndex(readings: seq<Reading>, m: Metric, startIdx: int, endIdx: int) returns (best: int)
    ensures |readings| == 0 ==> best == 0
    ensures |readings| > 0 ==>
      var lo := ClampIndex(startIdx, |readings|);
      var hi := ClampIndex(endIdx, |readings|);
      && lo <= best <= MaxInt(lo, hi)
      && (forall k :: lo <= k <= hi ==> readings[best].Value(m) >= readings[k].Value(m))
      && (forall k :: lo <= k < best ==> readings[k].Value(m) < readings[best].Value(m))
  {
    best := ClampIndex(startIdx, |readings|);
    var end := ClampIndex(endIdx, |readings|);
    var i := best + 1;
    while i <= end
      invariant |readings| > 0 ==> ClampIndex(startIdx, |readings|) <= best < i
      invariant |readings| > 0 ==> i - 1 <= MaxInt(ClampIndex(startIdx, |readings|), end)
      invariant |readings| == 0 ==> best == 0 && end == 0
      invariant |readings| > 0 ==> forall k :: ClampIndex(startIdx, |readings|) <= k < i ==> readings[best].Value(m) >= readings[k].Value(m)
      invariant |readings| > 0 ==> forall k :: ClampIndex(startIdx, |readings|) <= k < best ==> readings[k].Value(m) < readings[best].Value(m)
    {
      if readings[i].Value(m) > readings[best].Value(m) {
        best := i;
      }
      i := i + 1;
    }
  }

  /** A pair of reading indices into the history. */
  datatype IndexWindow = IndexWindow(startIdx: int, endIdx: int)

  /** `readings.slice(start, end + 1)` for clamped indices. */
  function Segment(readings: seq<Reading>, start: int, end: int): (seg: seq<Reading>)
    requires |readings| > 0 ==> 0 <= start < |readings| && 0 <= end < |readings|
    ensures |readings| > 0 && start <= end ==> |seg| == end - start + 1
    ensures forall k :: 0 <= k < |seg| ==> 0 <= start + k < |readings| && seg[k] == readings[start + k]
  {
    if |readings| == 0 || end < start then [] else readings[start..end + 1]
  }

  /** The window lengths, in readings, of a 2 hour and a 4 hour span at
      `stepMin` minutes per reading: at least 2, and the longer at least
      one more than the shorter. */
  function MinPoints(stepMin: real): (p: int)
    requires stepMin != 0.0
    ensures p >= 2
  {
    MaxInt(2, Round(120.0 / stepMin))
  }

  function MaxPoints(stepMin: real): (p: int)
    requires stepMin != 0.0
    ensures p > MinPoints(stepMin)
  {
    MaxInt(MinPoints(stepMin) + 1, Round(240.0 / stepMin))
  }

  /** The soil-moisture change from `seg[i]` to `seg[i + p]`. */
  function Drop(seg: seq<Reading>, i: int, p: int): real
    requires 0 <= i <= i + p < |seg|
  {
    seg[i + p].soilMoisturePct - seg[i].soilMoisturePct
  }

  /** The placements the search scans: a start `i` with room for the
      shortest window, and a length `p` between the two bounds that stays
      inside the segment. */
  ghost predicate Placement(len: int, minP: int, maxP: int, i: int, p: int) {
    0 <= i < len - minP && 0 <= minP <= p <= maxP && i + p < len
  }

  /** The order the nested loops visit placements in. */
  ghost predicate Before(i: int, p: int, i': int, p': int) {
    i < i' || (i == i' && p < p')
  }

  /** `(bs, bp)` is the first placement with the most negative change
      among those the loops have visited before `(ci, cp)`. */
  ghost predicate BestBefore(seg: seq<Reading>, minP: int, maxP: int, bs: int, bp: int, ci: int, cp: int) {
    && Placement(|seg|, minP, maxP, bs, bp)
    && Before(bs, bp, ci, cp)
    && (forall i, p :: Placement(|seg|, minP, maxP, i, p) && Before(i, p, ci, cp) ==> Drop(seg, bs, bp) <= Drop(seg, i, p))
    && (forall i, p :: Placement(|seg|, minP, maxP, i, p) && Before(i, p, bs, bp) ==> Drop(seg, bs, bp) < Drop(seg, i, p))
  }

  /** The inner loop of the search: every length `p` for start `i`. On
      entry `bestDrop` is absent only before the first placement. */
  method ScanLengths(seg: seq<Reading>, minP: int, maxP: int, i: int, bestStart: int, bestEnd: int, bestDrop: Option<real>)
    returns (bs: int, be: int, drop: Option<real>)
    requires 2 <= minP < maxP
    requires 0 <= i < |seg| - minP
    requires bestDrop.None? ==> i == 0
    requires bestDrop.Some? ==>
      BestBefore(seg, minP, maxP, bestStart, bestEnd - bestStart, i, minP)
      && bestDrop.value == Drop(seg, bestStart, bestEnd - bestStart)
    ensures BestBefore(seg, minP, maxP, bs, be - bs, i + 1, minP)
    ensures drop.Some? && drop.value == Drop(seg, bs, be - bs)
  {
    bs, drop := bestStart, bestDrop;
    var bp := bestEnd - bestStart;
    var p := minP;
    while p <= maxP && i + p < |seg|
      invariant minP <= p <= maxP + 1
      invariant drop.None? ==> p == minP && i == 0
      invariant drop.Some? ==> BestBefore(seg, minP, maxP, bs, bp, i, p) && drop.value == Drop(seg, bs, bp)
    {
      var change := seg[i + p].soilMoisturePct - seg[i].soilMoisturePct;
      if drop.None? {
        BestBeforeFirst(seg, minP, maxP, p);
        drop, bs, bp := Some(change), i, p;
      } else if change < drop.value {
        BestBeforeTake(seg, minP, maxP, bs, bp, i, p);
        drop, bs, bp := Some(change), i, p;
      } else {
        BestBeforeKeep(seg, minP, maxP, bs, bp, i, p);
      }
      p := p + 1;
    }
    BestBeforeNextStart(seg, minP, maxP, bs, bp, i, p);
    be := bs + bp;
  }

  /** The first placement visited is the best so far. */
  lemma BestBeforeFirst(seg: seq<Reading>, minP: int, maxP: int, p: int)
    requires Placement(|seg|, minP, maxP, 0, p) && p == minP
    ensures BestBefore(seg, minP, maxP, 0, p, 0, p + 1)
  {
    assert forall i', p' :: Placement(|seg|, minP, maxP, i', p') ==> !Before(i', p', 0, p);
  }

  /** A strictly lower drop at the current placement replaces the best. */
  lemma BestBeforeTake(seg: seq<Reading>, minP: int, maxP: int, bs: int, bp: int, ci: int, cp: int)
    requires BestBefore(seg, minP, maxP, bs, bp, ci, cp)
    requires Placement(|seg|, minP, maxP, ci, cp) && Drop(seg, ci, cp) < Drop(seg, bs, bp)
    ensures BestBefore(seg, minP, maxP, ci, cp, ci, cp + 1)
  {
  }

  /** A drop that is not lower leaves the best in place. */
  lemma BestBeforeKeep(seg: seq<Reading>, minP: int, maxP: int, bs: int, bp: int, ci: int, cp: int)
    requires BestBefore(seg, minP, maxP, bs, bp, ci, cp)
    requires Placement(|seg|, minP, maxP, ci, cp) && Drop(seg, bs, bp) <= Drop(seg, ci, cp)
    ensures BestBefore(seg, minP, maxP, bs, bp, ci, cp + 1)
  {
  }

  /** Once no longer length fits, the next start begins where this one ends. */
  lemma BestBeforeNextStart(seg: seq<Reading>, minP: int, maxP: int, bs: int, bp: int, ci: int, cp: int)
    requires BestBefore(seg, minP, maxP, bs, bp, ci, cp)
    requires cp > maxP || ci + cp >= |seg|
    ensures BestBefore(seg, minP, maxP, bs, bp, ci + 1, minP)
  {
    assert forall i', p' :: Placement(|seg|, minP, maxP, i', p') && Before(i', p', ci + 1, minP) ==> Before(i', p', ci, cp);
  }

  /** `pickIrrigationFailureWindow(readings, stepMin, startIdx, endIdx)`:
      among all 2-4 hour placements inside the clamped range, the first
      with the most negative soil-moisture change. With no placement it
      falls back to the shortest window at the range start, cut to the
      segment. */
  method PickIrrigationFailureWindow(readings: seq<Reading>, stepMin: real, startIdx: int, endIdx: int)
    returns (w: IndexWindow)
    requires stepMin != 0.0
    ensures var start := ClampIndex(startIdx, |readings|);
      var end := ClampIndex(endIdx, |readings|);
      var seg := Segment(readings, start, end);
      var minP := MinPoints(stepMin);
      var maxP := MaxPoints(stepMin);
      && (|readings| > 0 && start <= end ==> start <= w.startIdx <= w.endIdx <= end)
      && (|seg| <= minP ==> w == IndexWindow(start, start + MinInt(minP, |seg| - 1)))
      && (|seg| > minP ==>
            && start <= w.startIdx && w.endIdx <= end && minP <= w.endIdx - w.startIdx <= maxP
            && BestBefore(seg, minP, maxP, w.startIdx - start, w.endIdx - w.startIdx, |seg| - minP, minP))
  {
    var start := ClampIndex(startIdx, |readings|);
    var end := ClampIndex(endIdx, |readings|);
    var seg := Segment(readings, start, end);
    var minP := MinPoints(stepMin);
    var maxP := MaxPoints(stepMin);
    var bestStart := 0;
    var bestEnd := MinInt(minP, |seg| - 1);
    var bestDrop: Option<real> := None;
    var i := 0;
    while i < |seg| - minP
      invariant 0 <= i <= MaxInt(0, |seg| - minP)
      invariant bestDrop.None? <==> i == 0
      invariant bestDrop.None? ==> bestStart == 0 && bestEnd == MinInt(minP, |seg| - 1)
      invariant bestDrop.Some? ==>
        BestBefore(seg, minP, maxP, bestStart, bestEnd - bestStart, i, minP)
        && bestDrop.value == Drop(seg, bestStart, bestEnd - bestStart)
    {
      bestStart, bestEnd, bestDrop := ScanLengths(seg, minP, maxP, i, bestStart, bestEnd, bestDrop);
      i := i + 1;
    }
    w := IndexWindow(start + bestStart, start + bestEnd);
  }

  /** The soil-moisture rise from reading `i - 1` to reading `i`. */
  function Jump(readings: seq<Reading>, i: int): real
    requires 1 <= i < |readings|
  {
    readings[i].soilMoisturePct - readings[i - 1].soilMoisturePct
  }

  /** The last index the recovery search may pick: up to 4 hours (at least
      two readings) after the irrigation window, within the history. */
  function RecoverySearchEnd(n: int, irrigationEnd: int, stepMin: real): int
    requires stepMin != 0.0
  {
    MinInt(n - 1, irrigationEnd + MaxInt(2, Round(240.0 / stepMin)))
  }

  /** The recovery search of the synthesizer: the first index after the
      irrigation window with the largest one-step soil-moisture rise, or
      the index just after the window when there is no candidate. */
  method RecoveryIndex(readings: seq<Reading>, irrigationEnd: int, stepMin: real) returns (idx: int)
    requires stepMin != 0.0
    ensures var lo := MaxInt(1, irrigationEnd + 1);
      var hi := RecoverySearchEnd(|readings|, irrigationEnd, stepMin);
      && (hi < lo ==> idx == ClampIndex(irrigationEnd + 1, |readings|))
      && (lo <= hi ==>
            && lo <= idx <= hi
            && (forall k :: lo <= k <= hi ==> Jump(readings, k) <= Jump(readings, idx))
            && (forall k :: lo <= k < idx ==> Jump(readings, k) < Jump(readings, idx)))
  {
    var n := |readings|;
    idx := ClampIndex(irrigationEnd + 1, n);
    var bestJump: Option<real> := None;
    var searchEnd := RecoverySearchEnd(n, irrigationEnd, stepMin);
    var lo := MaxInt(1, irrigationEnd + 1);
    var i := lo;
    while i <= searchEnd
      invariant lo <= i <= MaxInt(lo, searchEnd + 1)
      invariant bestJump.None? <==> i == lo
      invariant bestJump.None? ==> idx == ClampIndex(irrigationEnd + 1, n)
      invariant bestJump.Some? ==>
        && lo <= idx < i
        && bestJump.value == Jump(readings, idx)
        && (forall k :: lo <= k < i ==> Jump(readings, k) <= bestJump.value)
        && (forall k :: lo <= k < idx ==> Jump(readings, k) < bestJump.value)
    {
      var jump := readings[i].soilMoisturePct - readings[i - 1].soilMoisturePct;
      if bestJump.None? || jump > bestJump.value {
        bestJump := Some(jump);
        idx := i;
      }
      i := i + 1;
    }
  }

  /** A synthesized ground-truth event; times in milliseconds. */
  datatype SeedEvent = SeedEvent(eventType: string, severity: string, startTs: int, endTs: int)

  function StartKey(e: SeedEvent): real { e.startTs as real }

  /** Shortest event length and the gap left after a previous event. */
  const FiveMinutesMs: int := 5 * MinuteMs

  /** The loop body of `enforceNonOverlap` for one event: keep at least five
      minutes of length; move an event that starts at or before the
      previous output's end to five minutes after it; then pull it inside
      [minMs, maxMs], preferring to keep its end at `maxMs`. */
  function Place(ev: SeedEvent, prevEnd: Option<int>, minMs: int, maxMs: int): (r: SeedEvent)
    ensures r.eventType == ev.eventType && r.severity == ev.severity
    ensures prevEnd.Some? ==> prevEnd.value < r.startTs || r.endTs == maxMs
    ensures minMs <= maxMs && ev.startTs <= ev.endTs ==> minMs <= r.startTs <= r.endTs <= maxMs
    ensures prevEnd.Some? && ev.startTs <= prevEnd.value && minMs <= prevEnd.value
            && prevEnd.value + FiveMinutesMs + MaxInt(FiveMinutesMs, ev.endTs - ev.startTs) <= maxMs ==>
      r.startTs == prevEnd.value + FiveMinutesMs && r.endTs == r.startTs + MaxInt(FiveMinutesMs, ev.endTs - ev.startTs)
    ensures (prevEnd.None? || prevEnd.value < ev.startTs) && minMs <= ev.startTs && ev.endTs <= maxMs ==> r == ev
  {
    var dur := MaxInt(FiveMinutesMs, ev.endTs - ev.startTs);
    var (s1, e1) := if prevEnd.Some? && ev.startTs <= prevEnd.value
                    then (prevEnd.value + FiveMinutesMs, prevEnd.value + FiveMinutesMs + dur)
                    else (ev.startTs, ev.endTs);
    var (s2, e2) := if s1 < minMs then (minMs, minMs + dur) else (s1, e1);
    var (s3, e3) := if e2 > maxMs then (MaxInt(minMs, maxMs - dur), maxMs) else (s2, e2);
    ev.(startTs := s3, endTs := e3)
  }

  /** The loop of `enforceNonOverlap` over the sorted events, each placed
      after the previous output. */
  function PlaceAll(sorted: seq<SeedEvent>, prevEnd: Option<int>, minMs: int, maxMs: int): (out: seq<SeedEvent>)
    ensures |out| == |sorted|
    ensures forall k :: 0 <= k < |out| ==> out[k].eventType == sorted[k].eventType && out[k].severity == sorted[k].severity
    ensures |out| > 0 ==> out[0] == Place(sorted[0], prevEnd, minMs, maxMs)
    ensures forall k :: 0 < k < |out| ==> out[k] == Place(sorted[k], Some(out[k - 1].endTs), minMs, maxMs)
  {
    if |sorted| == 0 then []
    else
      var first := Place(sorted[0], prevEnd, minMs, maxMs);
      var rest := PlaceAll(sorted[1..], Some(first.endTs), minMs, maxMs);
      [first] + rest
  }

  /** `enforceNonOverlap(events, minTs, maxTs)`: the events sorted by start
      time (stably), each placed after the previous output and inside the
      window. */
  function EnforceNonOverlap(events: seq<SeedEvent>, minTs: int, maxTs: int): (out: seq<SeedEvent>)
    ensures |out| == |events|
    ensures var sorted := SortBy(events, StartKey);
      && multiset(sorted) == multiset(events)
      && SortedBy(sorted, StartKey)
      && forall k :: 0 <= k < |out| ==> out[k].eventType == sorted[k].eventType && out[k].severity == sorted[k].severity
  {
    PlaceAll(SortBy(events, StartKey), None, minTs, maxTs)
  }

  /** Every interval ends up inside [minTs, maxTs] when the window is not
      empty and every input interval is well formed. */
  lemma EnforceNonOverlapInWindow(events: seq<SeedEvent>, minTs: int, maxTs: int)
    requires minTs <= maxTs
    requires forall e :: e in events ==> e.startTs <= e.endTs
    ensures var out := EnforceNonOverlap(events, minTs, maxTs);
      forall k :: 0 <= k < |out| ==> minTs <= out[k].startTs <= out[k].endTs <= maxTs
  {
    var sorted := SortBy(events, StartKey);
    var out := PlaceAll(sorted, None, minTs, maxTs);
    forall k | 0 <= k < |out| ensures minTs <= out[k].startTs <= out[k].endTs <= maxTs {
      assert sorted[k] in multiset(sorted);
      assert sorted[k] in events;
      if k == 0 {
        assert out[0] == Place(sorted[0], None, minTs, maxTs);
      } else {
        assert out[k] == Place(sorted[k], Some(out[k - 1].endTs), minTs, maxTs);
      }
    }
  }

  /** Each interval starts strictly after the previous one ends, unless it
      was pushed against the end of the window. */
  lemma EnforceNonOverlapSeparates(events: seq<SeedEvent>, minTs: int, maxTs: int)
    ensures var out := EnforceNonOverlap(events, minTs, maxTs);
      forall k :: 0 < k < |out| ==> out[k - 1].endTs < out[k].startTs || out[k].endTs == maxTs
  {
  }

  /** The clamp at the end of the window can undo the separation: two
      events ending with the window overlap afterwards. */
  lemma ClampCanReintroduceOverlap()
    ensures var out := EnforceNonOverlap(
        [SeedEvent("a", "high", 90 * MinuteMs, 100 * MinuteMs), SeedEvent("b", "high", 95 * MinuteMs, 100 * MinuteMs)],
        0, 100 * MinuteMs);
      |out| == 2 && out[1].startTs <= out[0].endTs
  {
    var events := [SeedEvent("a", "high", 90 * MinuteMs, 100 * MinuteMs), SeedEvent("b", "high", 95 * MinuteMs, 100 * MinuteMs)];
    var sorted := SortBy(events, StartKey);
    assert SortBy(events[1..], StartKey) == [events[1]];
    assert sorted == events;
  }

  /** Readings in time order, as the history query returns them. */
  ghost predicate TimesAscending(readings: seq<Reading>) {
    forall i, j :: 0 <= i <= j < |readings| ==> readings[i].ts <= readings[j].ts
  }

  /** The event types the synthesizer writes, all of them scored. */
  ghost predicate SynthesizedType(t: string) {
    t in {"cold_shock", "heat_stress", "humidity_anomaly", "irrigation_failure", "recovery_event"}
  }

  /** Fewer readings than this and no ground truth is written. */
  const MinReadings: int := 60

  /** The index range events are placed in: from 30% to 95% of the way
      through the history, so that the dynamic thresholds have history. */
  function SafeRange(n: int): (w: IndexWindow)
    requires n >= MinReadings
    ensures 0 <= w.startIdx <= w.endIdx < n
  {
    var lo := (n as real * 0.30).Floor;
    var hi := (n as real * 0.95).Floor;
    assert lo <= hi < n;
    IndexWindow(ClampIndex(lo, n), ClampIndex(hi, n))
  }

  /** The five events before the overlap pass: 20 minutes from the coldest
      reading, 25 from the hottest, 20 from the most humid, the irrigation
      window itself and 45 minutes from the recovery reading. */
  method RawEvents(readings: seq<Reading>, coldIdx: int, heatIdx: int, humidityIdx: int,
                   irrigation: IndexWindow, recoveryIdx: int) returns (raw: seq<SeedEvent>)
    requires 0 <= coldIdx < |readings| && 0 <= heatIdx < |readings| && 0 <= humidityIdx < |readings|
    requires 0 <= irrigation.startIdx <= irrigation.endIdx < |readings| && 0 <= recoveryIdx < |readings|
    ensures |raw| == 5
    ensures forall e :: e in raw ==> SynthesizedType(e.eventType)
    ensures TimesAscending(readings) ==> forall e :: e in raw ==> e.startTs <= e.endTs
  {
    raw := [
      SeedEvent("cold_shock", "high", readings[coldIdx].ts, readings[coldIdx].ts + 20 * MinuteMs),
      SeedEvent("heat_stress", "high", readings[heatIdx].ts, readings[heatIdx].ts + 25 * MinuteMs),
      SeedEvent("humidity_anomaly", "medium", readings[humidityIdx].ts, readings[humidityIdx].ts + 20 * MinuteMs),
      SeedEvent("irrigation_failure", "high", readings[irrigation.startIdx].ts, readings[irrigation.endIdx].ts),
      SeedEvent("recovery_event", "medium", readings[recoveryIdx].ts, readings[recoveryIdx].ts + 45 * MinuteMs)
    ];
  }

  /** The overlap pass keeps the event types. */
  lemma EnforceNonOverlapKeepsTypes(raw: seq<SeedEvent>, minTs: int, maxTs: int)
    requires forall e :: e in raw ==> SynthesizedType(e.eventType)
    ensures var out := EnforceNonOverlap(raw, minTs, maxTs);
      forall k :: 0 <= k < |out| ==> SynthesizedType(out[k].eventType) && EventMappedMetric(out[k].eventType).Some?
  {
    var out := EnforceNonOverlap(raw, minTs, maxTs);
    var sorted := SortBy(raw, StartKey);
    forall k | 0 <= k < |out|
      ensures SynthesizedType(out[k].eventType) && EventMappedMetric(out[k].eventType).Some?
    {
      assert sorted[k] in multiset(raw);
      assert sorted[k] in raw;
    }
  }

  /** The irrigation-failure window and the recovery reading after it,
      both inside the history. */
  method SoilMoistureEvents(readings: seq<Reading>, stepMin: real, safe: IndexWindow)
    returns (irrigation: IndexWindow, recoveryIdx: int)
    requires stepMin != 0.0
    requires 0 <= safe.startIdx <= safe.endIdx < |readings|
    ensures safe.startIdx <= irrigation.startIdx <= irrigation.endIdx <= safe.endIdx
    ensures 0 <= recoveryIdx < |readings|
    ensures irrigation.endIdx < recoveryIdx || recoveryIdx == |readings| - 1
  {
    irrigation := PickIrrigationFailureWindow(readings, stepMin, safe.startIdx, safe.endIdx);
    recoveryIdx := RecoveryIndex(readings, irrigation.endIdx, stepMin);
  }

  /** The five events for a history of at least 60 readings taken about
      `stepMin` minutes apart. */
  method PlaceEvents(readings: seq<Reading>, stepMin: real) returns (events: seq<SeedEvent>)
    requires |readings| >= MinReadings
    requires stepMin != 0.0
    ensures |events| == 5
    ensures forall k :: 0 <= k < |events| ==>
      SynthesizedType(events[k].eventType) && EventMappedMetric(events[k].eventType).Some?
    ensures TimesAscending(readings) ==> forall k :: 0 <= k < |events| ==>
      readings[0].ts <= events[k].startTs <= events[k].endTs <= readings[|readings| - 1].ts
    ensures forall k :: 0 < k < |events| ==>
      events[k - 1].endTs < events[k].startTs || events[k].endTs == readings[|readings| - 1].ts
  {
    var n := |readings|;
    var safe := SafeRange(n);
    var coldIdx := FindMinMetricIndex(readings, TempF, safe.startIdx, safe.endIdx);
    var heatIdx := FindMaxMetricIndex(readings, TempF, safe.startIdx, safe.endIdx);
    var humidityIdx := FindMaxMetricIndex(readings, RhPct, safe.startIdx, safe.endIdx);
    var irrigation, recoveryIdx := SoilMoistureEvents(readings, stepMin, safe);
    var raw := RawEvents(readings, coldIdx, heatIdx, humidityIdx, irrigation, recoveryIdx);
    var minTs, maxTs := readings[0].ts, readings[|readings| - 1].ts;
    events := EnforceNonOverlap(raw, minTs, maxTs);
    ghost var ascending := TimesAscending(readings);
    if ascending {
      assert minTs <= maxTs;
    }
    PlacedEvents(raw, minTs, maxTs, ascending);
  }

  /** What the overlap pass guarantees for the five raw events: synthesized
      types, separation, and, for well-formed intervals in a non-empty
      window, containment in the window. */
  lemma PlacedEvents(raw: seq<SeedEvent>, minTs: int, maxTs: int, wellFormed: bool)
    requires forall e :: e in raw ==> SynthesizedType(e.eventType)
    requires wellFormed ==> minTs <= maxTs && forall e :: e in raw ==> e.startTs <= e.endTs
    ensures var out := EnforceNonOverlap(raw, minTs, maxTs);
      && (forall k :: 0 <= k < |out| ==> SynthesizedType(out[k].eventType) && EventMappedMetric(out[k].eventType).Some?)
      && (wellFormed ==> forall k :: 0 <= k < |out| ==> minTs <= out[k].startTs <= out[k].endTs <= maxTs)
      && (forall k :: 0 < k < |out| ==> out[k - 1].endTs < out[k].startTs || out[k].endTs == maxTs)
  {
    EnforceNonOverlapKeepsTypes(raw, minTs, maxTs);
    if wellFormed {
      EnforceNonOverlapInWindow(raw, minTs, maxTs);
    }
    EnforceNonOverlapSeparates(raw, minTs, maxTs);
  }

  /** The synthesis step of the seeding command over the farm's readings in
      the lookback window: refuse short histories; otherwise place the five
      events using the median reading step. */
  method Synthesize(readings: seq<Reading>) returns (r: Result<seq<SeedEvent>>)
    ensures r.Err? <==> |readings| < MinReadings
    ensures r.Ok? ==> |r.value| == 5
    ensures r.Ok? ==> forall k :: 0 <= k < |r.value| ==>
      SynthesizedType(r.value[k].eventType) && EventMappedMetric(r.value[k].eventType).Some?
    ensures r.Ok? && TimesAscending(readings) ==> forall k :: 0 <= k < |r.value| ==>
      readings[0].ts <= r.value[k].startTs <= r.value[k].endTs <= readings[|readings| - 1].ts
  {
    if |readings| < MinReadings {
      return Err("Not enough readings; need at least 60");
    }
    var events := PlaceEvents(readings, MedianMinutes(readings));
    return Ok(events);
  }
}
