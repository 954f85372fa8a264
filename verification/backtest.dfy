/** The offline backtest of `run-experiments`: EMA-smoothed dynamic
    thresholds recomputed at most every N minutes from a rolling window, and
    a per-metric debounce and cooldown engine replayed over a reading
    series. All state lives for one run only. */
module Backtest {
  import opened Wrappers
  import opened Metrics
  import opened SafetyLayer
  import opened Quantiles
  import opened Streaks
  import opened Seqs

  /** `ema(prev, next, alpha)`: `next` when there is no previous value,
      otherwise `alpha * next + (1 - alpha) * prev`. */
  function Ema(prev: Option<real>, next: real, alpha: real): (r: real)
    ensures prev.None? ==> r == next
    ensures prev.Some? && 0.0 <= alpha <= 1.0 ==>
      (prev.value <= r <= next || next <= r <= prev.value)
  {
    match prev
    case None => next
    case Some(p) =>
      EmaBetween(p, next, alpha);
      Mix(p, next, alpha)
  }

  /** The weighted average of `p` and `n` giving `n` the weight `alpha`. */
  function Mix(p: real, n: real, alpha: real): real {
    alpha * n + (1.0 - alpha) * p
  }

  lemma EmaBetween(p: real, n: real, alpha: real)
    ensures 0.0 <= alpha <= 1.0 ==>
      var r := Mix(p, n, alpha);
      p <= r <= n || n <= r <= p
  {
    if 0.0 <= alpha <= 1.0 {
      var r := Mix(p, n, alpha);
      assert r - p == alpha * (n - p);
      assert n - r == (1.0 - alpha) * (n - p);
      if p <= n {
        MulNonNeg(alpha, n - p);
        MulNonNeg(1.0 - alpha, n - p);
      } else {
        MulNonNeg(alpha, p - n);
        MulNonNeg(1.0 - alpha, p - n);
      }
    }
  }

  lemma MulNonNeg(x: real, y: real)
    requires x >= 0.0 && y >= 0.0
    ensures x * y >= 0.0
  {
  }

  /** Feeding the EMA its own value leaves it there. */
  lemma EmaFixedPoint(p: real, alpha: real)
    ensures Ema(Some(p), p, alpha) == p
  {
    assert alpha * p + (1.0 - alpha) * p == p;
  }

  /** For alpha in (0, 1] every step strictly shrinks the distance to a
      different candidate, and never overshoots it. */
  lemma EmaConverges(p: real, n: real, alpha: real)
    requires 0.0 < alpha <= 1.0
    requires p != n
    ensures Abs(Ema(Some(p), n, alpha) - n) < Abs(p - n)
  {
    var r := Mix(p, n, alpha);
    assert Ema(Some(p), n, alpha) == r;
    var gap, left := Abs(p - n), Abs(r - n);
    MixDistance(p, n, alpha);
    MulNonNeg(1.0 - alpha, gap);
    MulPos(alpha, gap);
    assert left == (1.0 - alpha) * gap;
    assert gap - left == alpha * gap;
  }

  /** The distance left after one step is the old one scaled by
      `1 - alpha`. */
  lemma MixDistance(p: real, n: real, alpha: real)
    ensures Abs(Mix(p, n, alpha) - n) == (1.0 - alpha) * Abs(p - n) || alpha > 1.0
  {
    if alpha <= 1.0 {
      assert Mix(p, n, alpha) - n == (1.0 - alpha) * (p - n);
      if p < n {
        MulNonNeg(1.0 - alpha, n - p);
        assert Mix(p, n, alpha) - n == -((1.0 - alpha) * (n - p));
      } else {
        MulNonNeg(1.0 - alpha, p - n);
      }
    }
  }

  lemma MulPos(x: real, y: real)
    requires x > 0.0 && y > 0.0
    ensures x * y > 0.0
  {
  }

  /** The EMA is monotone in both arguments for alpha in [0, 1]. */
  lemma EmaMonotone(p: real, p': real, n: real, n': real, alpha: real)
    requires 0.0 <= alpha <= 1.0
    requires p <= p' && n <= n'
    ensures Ema(Some(p), n, alpha) <= Ema(Some(p'), n', alpha)
  {
    MulNonNeg(alpha, n' - n);
    MulNonNeg(1.0 - alpha, p' - p);
    assert Ema(Some(p'), n', alpha) - Ema(Some(p), n, alpha) == alpha * (n' - n) + (1.0 - alpha) * (p' - p);
  }

  /** Smoothing two ordered bands bound by bound gives an ordered band. */
  lemma EmaKeepsOrder(prev: Option<Band>, raw: Band, alpha: real)
    ensures 0.0 <= alpha <= 1.0 && raw.low <= raw.high && (prev.Some? ==> prev.value.low <= prev.value.high) ==>
      Ema(if prev.Some? then Some(prev.value.low) else None, raw.low, alpha)
        <= Ema(if prev.Some? then Some(prev.value.high) else None, raw.high, alpha)
  {
    if prev.Some? && 0.0 <= alpha <= 1.0 && raw.low <= raw.high && prev.value.low <= prev.value.high {
      EmaMonotone(prev.value.low, prev.value.high, raw.low, raw.high, alpha);
    }
  }

  /** The resolved per-metric knobs of one experiment configuration. */
  datatype MetricParams = MetricParams(qLow: real, qHigh: real, margin: real, minConsecutive: int, cooldownMin: int)

  datatype Kind = StaticKind | DynamicKind

  /** An experiment configuration with its `??` defaults already applied. */
  datatype Config = Config(
    kind: Kind, temp: MetricParams, rh: MetricParams, soil: MetricParams,
    windowHours: int, thresholdUpdateEveryMin: int, emaAlpha: real, minHistoryPoints: int)
  {
    function Params(m: Metric): MetricParams {
      match m
      case TempF => temp
      case RhPct => rh
      case SoilMoisturePct => soil
    }
  }

  /** The knobs under which the dynamic bands stay ordered and safe. */
  ghost predicate SaneDynamic(cfg: Config) {
    && 0.0 <= cfg.emaAlpha <= 1.0
    && forall m: Metric :: 0.0 <= cfg.Params(m).qLow <= cfg.Params(m).qHigh <= 1.0 && cfg.Params(m).margin >= 0.0
  }

  /** The cached-threshold and EMA state of one run. */
  datatype ThresholdState = ThresholdState(lastUpdateMs: map<Metric, int>, cached: map<Metric, Band>, ema: map<Metric, Band>)

  const EmptyThresholdState: ThresholdState := ThresholdState(map[], map[], map[])

  /** What the source keeps true of its state: the cache and the EMA state
      are written together, and every band in them is ordered and safe. */
  ghost predicate GoodState(st: ThresholdState) {
    && st.cached == st.ema
    && st.lastUpdateMs.Keys == st.ema.Keys
    && forall m :: m in st.ema ==> WithinSafety(st.ema[m], m)
  }

  /** Whether a reading's timestamp lies in [fromTs, toTs]. */
  predicate InWindow(r: Reading, fromTs: int, toTs: int) {
    fromTs <= r.ts <= toTs
  }

  /** The positions of the readings inside [fromTs, toTs]. */
  ghost function WindowIndices(readings: seq<Reading>, fromTs: int, toTs: int): set<int> {
    set k | 0 <= k < |readings| && InWindow(readings[k], fromTs, toTs)
  }

  /** The values of metric `m` among `readings` whose timestamps lie in
      [fromTs, toTs], in order: one value per reading in the window, and
      only values of such readings. */
  function WindowValues(readings: seq<Reading>, fromTs: int, toTs: int, m: Metric): (values: seq<real>)
    ensures |values| == |WindowIndices(readings, fromTs, toTs)|
    ensures forall v :: v in values <==>
      exists k :: 0 <= k < |readings| && InWindow(readings[k], fromTs, toTs) && readings[k].Value(m) == v
  {
    if |readings| == 0 then []
    else
      var rest := WindowValues(readings[1..], fromTs, toTs, m);
      WindowIndicesCons(readings, fromTs, toTs);
      ShiftCard(WindowIndices(readings[1..], fromTs, toTs), |readings| - 1);
      assert forall k :: 0 < k < |readings| ==> readings[k] == readings[1..][k - 1];
      if InWindow(readings[0], fromTs, toTs) then [readings[0].Value(m)] + rest else rest
  }

  /** The window indices of `readings` are its first index if that reading
      is in the window, and the window indices of its tail moved up by one. */
  lemma {:induction false} WindowIndicesCons(readings: seq<Reading>, fromTs: int, toTs: int)
    requires |readings| > 0
    ensures WindowIndices(readings, fromTs, toTs) ==
      (if InWindow(readings[0], fromTs, toTs) then {0} else {}) + Shift(WindowIndices(readings[1..], fromTs, toTs))
    ensures 0 !in Shift(WindowIndices(readings[1..], fromTs, toTs))
    ensures forall k :: k in WindowIndices(readings[1..], fromTs, toTs) ==> 0 <= k < |readings| - 1
  {
    var tail := WindowIndices(readings[1..], fromTs, toTs);
    forall k ensures k in WindowIndices(readings, fromTs, toTs) <==>
      k in (if InWindow(readings[0], fromTs, toTs) then {0} else {}) + Shift(tail)
    {
      if 0 < k < |readings| {
        assert readings[k] == readings[1..][k - 1];
        assert k - 1 in tail <==> k in Shift(tail);
      }
    }
  }

  /** The window values of a concatenation are those of each part, in
      order: the history keeps the readings' order. */
  lemma {:induction false} WindowValuesAppend(a: seq<Reading>, b: seq<Reading>, fromTs: int, toTs: int, m: Metric)
    ensures WindowValues(a + b, fromTs, toTs, m) == WindowValues(a, fromTs, toTs, m) + WindowValues(b, fromTs, toTs, m)
    decreases |a|
  {
    if |a| > 0 {
      assert (a + b)[0] == a[0];
      assert (a + b)[1..] == a[1..] + b;
      WindowValuesAppend(a[1..], b, fromTs, toTs, m);
    } else {
      assert a + b == b;
    }
  }

  /** The clamped band from a window's history, before smoothing. The
      source subtracts the margin from a null quantile as from 0. A null
      quantile comes from an empty history, which a positive minimum rules
      out, or from a quantile knob outside [0, 1], where the source reads
      outside the sorted copy and gets NaN; sane knobs rule that out. */
  function RawBand(history: seq<real>, m: Metric, p: MetricParams): (b: Band)
    ensures 0.0 <= p.qLow <= p.qHigh <= 1.0 && p.margin >= 0.0 && |history| > 0 ==> WithinSafety(b, m)
    ensures SafetyBounds(m).low <= b.low <= SafetyBounds(m).high
    ensures SafetyBounds(m).low <= b.high <= SafetyBounds(m).high
  {
    var bounds := SafetyBounds(m);
    var lowQ := Quantile(history, p.qLow).GetOr(0.0);
    var highQ := Quantile(history, p.qHigh).GetOr(0.0);
    QuantileMonotoneIf(history, p.qLow, p.qHigh);
    ClampMonotoneIfOrdered(lowQ - p.margin, highQ + p.margin, bounds.low, bounds.high);
    Band(Clamp(lowQ - p.margin, bounds.low, bounds.high), Clamp(highQ + p.margin, bounds.low, bounds.high))
  }

  lemma QuantileMonotoneIf(values: seq<real>, q1: real, q2: real)
    ensures |values| > 0 && 0.0 <= q1 <= q2 <= 1.0 ==>
      Quantile(values, q1).GetOr(0.0) <= Quantile(values, q2).GetOr(0.0)
  {
    if |values| > 0 && 0.0 <= q1 <= q2 <= 1.0 {
      QuantileMonotone(values, q1, q2);
    }
  }

  lemma ClampMonotoneIfOrdered(v: real, w: real, low: real, high: real)
    ensures v <= w ==> Clamp(v, low, high) <= Clamp(w, low, high)
  {
  }

  /** The values of `m` over the window of `windowHours` ending at reading
      `idx`, among readings `0..idx`: one value per such reading, and only
      their values. */
  function History(readings: seq<Reading>, idx: nat, m: Metric, cfg: Config): (history: seq<real>)
    requires idx < |readings|
    ensures var now := readings[idx].ts;
      |history| == |set k | 0 <= k <= idx && InWindow(readings[k], now - cfg.windowHours * 3600000, now)|
    ensures var now := readings[idx].ts;
      forall v :: v in history <==>
        exists k :: 0 <= k <= idx && InWindow(readings[k], now - cfg.windowHours * 3600000, now) && readings[k].Value(m) == v
  {
    var now := readings[idx].ts;
    var prefix := readings[..idx + 1];
    assert forall k :: 0 <= k <= idx ==> prefix[k] == readings[k];
    assert WindowIndices(prefix, now - cfg.windowHours * 3600000, now)
      == set k | 0 <= k <= idx && InWindow(readings[k], now - cfg.windowHours * 3600000, now);
    WindowValues(prefix, now - cfg.windowHours * 3600000, now, m)
  }

  /** The clamped quantile band smoothed bound by bound into the previous
      EMA state. */
  function Smoothed(history: seq<real>, m: Metric, cfg: Config, prev: Option<Band>): (b: Band)
    ensures prev.None? ==> b == RawBand(history, m, cfg.Params(m))
    ensures SaneDynamic(cfg) && |history| > 0 && (prev.Some? ==> WithinSafety(prev.value, m)) ==> WithinSafety(b, m)
  {
    var raw := RawBand(history, m, cfg.Params(m));
    var low := Ema(if prev.Some? then Some(prev.value.low) else None, raw.low, cfg.emaAlpha);
    var high := Ema(if prev.Some? then Some(prev.value.high) else None, raw.high, cfg.emaAlpha);
    EmaKeepsOrder(prev, raw, cfg.emaAlpha);
    Band(low, high)
  }

  /** Whether the cached band for `m` is still fresh at reading `idx`. */
  predicate CacheFresh(readings: seq<Reading>, idx: nat, m: Metric, cfg: Config, st: ThresholdState)
    requires idx < |readings|
  {
    m in st.lastUpdateMs && readings[idx].ts - st.lastUpdateMs[m] < cfg.thresholdUpdateEveryMin * 60000
  }

  /** `dynamicThresholdFor(readings, idx, metric, config, state)`: the
      cached band while less than the update interval has passed since the
      last recompute; otherwise nothing when the window holds fewer than
      `minHistoryPoints` values; otherwise the EMA of the clamped quantile
      band, written to the cache and the EMA state. */
  function DynamicThresholdFor(readings: seq<Reading>, idx: nat, m: Metric, cfg: Config, st: ThresholdState)
    : (r: (Option<Band>, ThresholdState))
    requires idx < |readings|
    ensures CacheFresh(readings, idx, m, cfg, st) ==> r == (Lookup(st.cached, m), st)
    ensures !CacheFresh(readings, idx, m, cfg, st) && |History(readings, idx, m, cfg)| < cfg.minHistoryPoints ==>
      r == (None, st)
    ensures !CacheFresh(readings, idx, m, cfg, st) && |History(readings, idx, m, cfg)| >= cfg.minHistoryPoints ==>
      var band := Smoothed(History(readings, idx, m, cfg), m, cfg, Lookup(st.ema, m));
      r.0 == Some(band)
      && r.1 == ThresholdState(st.lastUpdateMs[m := readings[idx].ts], st.cached[m := band], st.ema[m := band])
    ensures SaneDynamic(cfg) && cfg.minHistoryPoints > 0 && GoodState(st) ==>
      GoodState(r.1) && (r.0.Some? ==> WithinSafety(r.0.value, m))
  {
    if CacheFresh(readings, idx, m, cfg, st) then (Lookup(st.cached, m), st)
    else
      var history := History(readings, idx, m, cfg);
      if |history| < cfg.minHistoryPoints then (None, st)
      else
        var band := Smoothed(history, m, cfg, Lookup(st.ema, m));
        (Some(band), ThresholdState(st.lastUpdateMs[m := readings[idx].ts], st.cached[m := band], st.ema[m := band]))
  }

  /** The three configurations the backtest compares, with the source's
      defaults filled in where a configuration leaves a knob unset (the
      quantile knobs of the static baseline are never read). */
  const StaticBaseline: Config :=
    var p := MetricParams(0.0, 0.0, 0.0, 1, 45);
    Config(StaticKind, p, p, p, 24, 30, 0.35, 30)

  const DynamicV2: Config :=
    Config(DynamicKind,
      MetricParams(0.10, 0.90, 2.0, 2, 30), MetricParams(0.10, 0.90, 3.0, 2, 30),
      MetricParams(0.10, 0.90, 2.0, 1, 45), 24, 30, 0.35, 30)

  const DynamicStable: Config :=
    Config(DynamicKind,
      MetricParams(0.05, 0.95, 2.5, 3, 45), MetricParams(0.05, 0.95, 4.0, 3, 45),
      MetricParams(0.05, 0.95, 2.5, 2, 60), 24, 60, 0.25, 30)

  /** Both dynamic configurations keep their bands ordered and safe, and
      every configuration has non-negative cooldowns. */
  lemma ShippedConfigsSane()
    ensures SaneDynamic(DynamicV2) && SaneDynamic(DynamicStable)
    ensures NonNegativeCooldowns(StaticBaseline) && NonNegativeCooldowns(DynamicV2) && NonNegativeCooldowns(DynamicStable)
    ensures DynamicV2.minHistoryPoints > 0 && DynamicStable.minHistoryPoints > 0
  {
    forall m: Metric ensures 0.0 <= DynamicV2.Params(m).qLow <= DynamicV2.Params(m).qHigh <= 1.0 {
    }
  }

  ghost predicate NonNegativeCooldowns(cfg: Config) {
    forall m: Metric :: cfg.Params(m).cooldownMin >= 0
  }

  function CooldownMs(cfg: Config, m: Metric): int {
    cfg.Params(m).cooldownMin * 60000
  }

  /** One debounce step of `simulateAlerts` for a metric: a breach extends
      the streak and any other reading resets it to zero; an alert is
      pushed exactly when the reading breaches, the extended streak has
      reached `needed`, and there was no earlier alert or at least the
      cooldown has passed since it. Pushing does not reset the streak. */
  function DebounceStep(streak: nat, last: Option<int>, breach: bool, ts: int, needed: int, cooldownMs: int)
    : (r: (nat, bool))
    ensures !breach ==> r == (0, false)
    ensures breach ==> r.0 == streak + 1
    ensures r.1 <==> breach && streak + 1 >= needed && (last.None? || ts - last.value >= cooldownMs)
  {
    var next := if breach then streak + 1 else 0;
    if !breach || next < needed then (next, false)
    else if last.Some? && ts - last.value < cooldownMs then (next, false)
    else (next, true)
  }

  /** The streak after feeding breach flags one by one. */
  function StreakAfter(flags: seq<bool>): nat
    decreases |flags|
  {
    if |flags| == 0 then 0
    else DebounceStep(StreakAfter(flags[..|flags| - 1]), None, flags[|flags| - 1], 0, 0, 0).0
  }

  /** The streak is the number of consecutive breaches ending at the latest
      reading. */
  lemma {:induction false} StreakCountsRun(flags: seq<bool>)
    ensures StreakAfter(flags) == TrailingBreaches(0, flags)
    decreases |flags|
  {
    if |flags| > 0 {
      StreakCountsRun(flags[..|flags| - 1]);
    }
  }

  /** An alert of the backtest: when and for which metric. */
  datatype SimAlert = SimAlert(ts: int, metric: Metric)

  /** The per-run state of `simulateAlerts`: streaks, last alert times and
      the threshold cache. */
  datatype SimState = SimState(streak: map<Metric, nat>, lastAlertMs: map<Metric, int>, thresholds: ThresholdState)

  const InitialSimState: SimState := SimState(map[], map[], EmptyThresholdState)

  function StreakOf(st: SimState, m: Metric): nat {
    if m in st.streak then st.streak[m] else 0
  }

  /** The threshold a metric is compared against: the static one for the
      static baseline; otherwise the dynamic band, falling back to the
      static one when the dynamic estimator has nothing yet. */
  function ThresholdFor(readings: seq<Reading>, i: nat, m: Metric, cfg: Config, staticMap: map<string, Threshold>,
                        th: ThresholdState): (r: (Option<Threshold>, ThresholdState))
    requires i < |readings|
    ensures cfg.kind == StaticKind ==> r == (Lookup(staticMap, m.Name()), th)
    ensures cfg.kind == DynamicKind ==>
      var d := DynamicThresholdFor(readings, i, m, cfg, th);
      r.1 == d.1 && (d.0.Some? ==> r.0 == Some(AsThreshold(d.0.value))) && (d.0.None? ==> r.0 == Lookup(staticMap, m.Name()))
  {
    if cfg.kind == StaticKind then (Lookup(staticMap, m.Name()), th)
    else
      var d := DynamicThresholdFor(readings, i, m, cfg, th);
      (if d.0.Some? then Some(AsThreshold(d.0.value)) else Lookup(staticMap, m.Name()), d.1)
  }

  /** Whether reading `i` breaches metric `m` given the threshold state. */
  function BreachWith(readings: seq<Reading>, i: nat, m: Metric, cfg: Config, staticMap: map<string, Threshold>,
                      th: ThresholdState): bool
    requires i < |readings|
  {
    IsBreach(readings[i].Value(m), ThresholdFor(readings, i, m, cfg, staticMap, th).0)
  }

  /** The body of the inner loop of `simulateAlerts` for one metric. */
  function MetricStep(readings: seq<Reading>, i: nat, m: Metric, cfg: Config, staticMap: map<string, Threshold>,
                      st: SimState): (r: (SimState, Option<SimAlert>))
    requires i < |readings|
    ensures var breach := BreachWith(readings, i, m, cfg, staticMap, st.thresholds);
      var emit := DebounceStep(StreakOf(st, m), Lookup(st.lastAlertMs, m), breach, readings[i].ts,
                               cfg.Params(m).minConsecutive, CooldownMs(cfg, m));
      && r.0.streak == st.streak[m := emit.0]
      && (r.1.Some? <==> emit.1)
      && (r.1.Some? ==> r.1.value == SimAlert(readings[i].ts, m) && r.0.lastAlertMs == st.lastAlertMs[m := readings[i].ts])
      && (r.1.None? ==> r.0.lastAlertMs == st.lastAlertMs)
      && r.0.thresholds == ThresholdFor(readings, i, m, cfg, staticMap, st.thresholds).1
  {
    var (threshold, th) := ThresholdFor(readings, i, m, cfg, staticMap, st.thresholds);
    var breach := IsBreach(readings[i].Value(m), threshold);
    var (next, emit) := DebounceStep(StreakOf(st, m), Lookup(st.lastAlertMs, m), breach, readings[i].ts,
                                     cfg.Params(m).minConsecutive, CooldownMs(cfg, m));
    if emit then
      (SimState(st.streak[m := next], st.lastAlertMs[m := readings[i].ts], th), Some(SimAlert(readings[i].ts, m)))
    else
      (SimState(st.streak[m := next], st.lastAlertMs, th), None)
  }

  /** The inner loop: the metrics `ms` in order, for reading `i`. */
  function ProcessMetrics(readings: seq<Reading>, i: nat, ms: seq<Metric>, cfg: Config,
                          staticMap: map<string, Threshold>, st: SimState): (r: (SimState, seq<SimAlert>))
    requires i < |readings|
    ensures |r.1| <= |ms|
    ensures forall k :: 0 <= k < |r.1| ==> r.1[k].ts == readings[i].ts && r.1[k].metric in ms
  {
    if |ms| == 0 then (st, [])
    else
      var (st1, a) := MetricStep(readings, i, ms[0], cfg, staticMap, st);
      var (st2, rest) := ProcessMetrics(readings, i, ms[1..], cfg, staticMap, st1);
      (st2, (if a.Some? then [a.value] else []) + rest)
  }

  /** The state and the alerts after the first `n` readings. */
  function Run(readings: seq<Reading>, staticMap: map<string, Threshold>, cfg: Config, n: nat)
    : (r: (SimState, seq<SimAlert>))
    requires n <= |readings|
    ensures |r.1| <= 3 * n
  {
    if n == 0 then (InitialSimState, [])
    else
      var (st, alerts) := Run(readings, staticMap, cfg, n - 1);
      var (next, batch) := ProcessMetrics(readings, n - 1, AllMetrics, cfg, staticMap, st);
      (next, alerts + batch)
  }

  /** `simulateAlerts({readings, staticMap, config})`. */
  function SimulateAlerts(readings: seq<Reading>, staticMap: map<string, Threshold>, cfg: Config)
    : (alerts: seq<SimAlert>)
    ensures |alerts| <= 3 * |readings|
    ensures forall k :: 0 <= k < |alerts| ==> alerts[k].ts in ReadingTimes(readings)
  {
    RunTimestamps(readings, staticMap, cfg, |readings|);
    Run(readings, staticMap, cfg, |readings|).1
  }

  lemma {:induction false} RunTimestamps(readings: seq<Reading>, staticMap: map<string, Threshold>, cfg: Config, n: nat)
    requires n <= |readings|
    ensures forall k :: 0 <= k < |Run(readings, staticMap, cfg, n).1| ==>
      Run(readings, staticMap, cfg, n).1[k].ts in ReadingTimes(readings)
  {
    if n > 0 {
      RunTimestamps(readings, staticMap, cfg, n - 1);
      var prev := Run(readings, staticMap, cfg, n - 1);
      var alerts := prev.1;
      var batch := ProcessMetrics(readings, n - 1, AllMetrics, cfg, staticMap, prev.0).1;
      var all := Run(readings, staticMap, cfg, n).1;
      assert all == alerts + batch;
      assert readings[n - 1].ts in ReadingTimes(readings);
      forall k | 0 <= k < |all| ensures all[k].ts in ReadingTimes(readings) {
        if k < |alerts| {
          assert all[k] == alerts[k];
        } else {
          assert all[k] == batch[k - |alerts|];
        }
      }
    }
  }

  /** The timestamps of a reading series. */
  function ReadingTimes(readings: seq<Reading>): set<int> {
    set i | 0 <= i < |readings| :: readings[i].ts
  }

  /** Any two alerts of one metric are at least that metric's cooldown
      apart. */
  ghost predicate Spaced(alerts: seq<SimAlert>, cfg: Config) {
    forall a, b :: 0 <= a < b < |alerts| && alerts[a].metric == alerts[b].metric ==>
      alerts[b].ts - alerts[a].ts >= CooldownMs(cfg, alerts[b].metric)
  }

  /** Every alert is at or before the last alert time kept for its metric. */
  ghost predicate Recorded(st: SimState, alerts: seq<SimAlert>) {
    forall k :: 0 <= k < |alerts| ==> alerts[k].metric in st.lastAlertMs && alerts[k].ts <= st.lastAlertMs[alerts[k].metric]
  }

  lemma MetricStepSpaced(readings: seq<Reading>, i: nat, m: Metric, cfg: Config, staticMap: map<string, Threshold>,
                         st: SimState, alerts: seq<SimAlert>)
    requires i < |readings|
    requires NonNegativeCooldowns(cfg)
    requires Spaced(alerts, cfg) && Recorded(st, alerts)
    ensures var r := MetricStep(readings, i, m, cfg, staticMap, st);
      var more := alerts + (if r.1.Some? then [r.1.value] else []);
      Spaced(more, cfg) && Recorded(r.0, more)
  {
    var r := MetricStep(readings, i, m, cfg, staticMap, st);
    if r.1.Some? {
      var more := alerts + [r.1.value];
      assert CooldownMs(cfg, m) >= 0;
      forall a, b | 0 <= a < b < |more| && more[a].metric == more[b].metric
        ensures more[b].ts - more[a].ts >= CooldownMs(cfg, more[b].metric)
      {
        if b == |alerts| {
          assert more[a] == alerts[a];
          assert m in st.lastAlertMs && alerts[a].ts <= st.lastAlertMs[m];
        } else {
          assert more[a] == alerts[a] && more[b] == alerts[b];
        }
      }
      forall k | 0 <= k < |more|
        ensures more[k].metric in r.0.lastAlertMs && more[k].ts <= r.0.lastAlertMs[more[k].metric]
      {
        if k < |alerts| {
          assert more[k] == alerts[k];
        }
      }
    } else {
      assert alerts + [] == alerts;
    }
  }

  lemma {:induction false} ProcessMetricsSpaced(readings: seq<Reading>, i: nat, ms: seq<Metric>, cfg: Config,
                                                staticMap: map<string, Threshold>, st: SimState, alerts: seq<SimAlert>)
    requires i < |readings|
    requires NonNegativeCooldowns(cfg)
    requires Spaced(alerts, cfg) && Recorded(st, alerts)
    ensures var r := ProcessMetrics(readings, i, ms, cfg, staticMap, st);
      Spaced(alerts + r.1, cfg) && Recorded(r.0, alerts + r.1)
    decreases |ms|
  {
    if |ms| == 0 {
      assert alerts + [] == alerts;
    } else {
      var step := MetricStep(readings, i, ms[0], cfg, staticMap, st);
      var head := if step.1.Some? then [step.1.value] else [];
      MetricStepSpaced(readings, i, ms[0], cfg, staticMap, st, alerts);
      ProcessMetricsSpaced(readings, i, ms[1..], cfg, staticMap, step.0, alerts + head);
      var rest := ProcessMetrics(readings, i, ms[1..], cfg, staticMap, step.0);
      var r := ProcessMetrics(readings, i, ms, cfg, staticMap, st);
      assert r.0 == rest.0 && r.1 == head + rest.1;
      AppendAssoc(alerts, head, rest.1);
    }
  }

  lemma {:induction false} RunSpaced(readings: seq<Reading>, staticMap: map<string, Threshold>, cfg: Config, n: nat)
    requires n <= |readings|
    requires NonNegativeCooldowns(cfg)
    ensures Spaced(Run(readings, staticMap, cfg, n).1, cfg)
    ensures Recorded(Run(readings, staticMap, cfg, n).0, Run(readings, staticMap, cfg, n).1)
  {
    if n > 0 {
      RunSpaced(readings, staticMap, cfg, n - 1);
      var prev := Run(readings, staticMap, cfg, n - 1);
      ProcessMetricsSpaced(readings, n - 1, AllMetrics, cfg, staticMap, prev.0, prev.1);
    }
  }

  /** With non-negative cooldowns, two alerts `simulateAlerts` pushes for
      the same metric are at least that metric's cooldown apart, whatever
      the order of the readings. */
  lemma AlertsRespectCooldown(readings: seq<Reading>, staticMap: map<string, Threshold>, cfg: Config)
    requires NonNegativeCooldowns(cfg)
    ensures Spaced(SimulateAlerts(readings, staticMap, cfg), cfg)
  {
    RunSpaced(readings, staticMap, cfg, |readings|);
  }

  /** Two threshold states that hold the same entries for `m`. */
  ghost predicate SameFor(th1: ThresholdState, th2: ThresholdState, m: Metric) {
    && Lookup(th1.lastUpdateMs, m) == Lookup(th2.lastUpdateMs, m)
    && Lookup(th1.cached, m) == Lookup(th2.cached, m)
    && Lookup(th1.ema, m) == Lookup(th2.ema, m)
  }

  /** The dynamic estimator for `m` reads only the entries for `m`... */
  lemma DynamicLocal(readings: seq<Reading>, i: nat, m: Metric, cfg: Config, th1: ThresholdState, th2: ThresholdState)
    requires i < |readings|
    requires SameFor(th1, th2, m)
    ensures DynamicThresholdFor(readings, i, m, cfg, th1).0 == DynamicThresholdFor(readings, i, m, cfg, th2).0
    ensures SameFor(DynamicThresholdFor(readings, i, m, cfg, th1).1, DynamicThresholdFor(readings, i, m, cfg, th2).1, m)
  {
    assert CacheFresh(readings, i, m, cfg, th1) == CacheFresh(readings, i, m, cfg, th2);
    if !CacheFresh(readings, i, m, cfg, th1) && |History(readings, i, m, cfg)| >= cfg.minHistoryPoints {
      var band := Smoothed(History(readings, i, m, cfg), m, cfg, Lookup(th1.ema, m));
      assert band == Smoothed(History(readings, i, m, cfg), m, cfg, Lookup(th2.ema, m));
    }
  }

  /** ... and writes only the entries for `m`. */
  lemma DynamicFrame(readings: seq<Reading>, i: nat, m: Metric, cfg: Config, th: ThresholdState, other: Metric)
    requires i < |readings|
    requires other != m
    ensures SameFor(DynamicThresholdFor(readings, i, m, cfg, th).1, th, other)
  {
  }

  /** The threshold for `m` reads only the entries for `m`. */
  lemma ThresholdLocal(readings: seq<Reading>, i: nat, m: Metric, cfg: Config, staticMap: map<string, Threshold>,
                       th1: ThresholdState, th2: ThresholdState)
    requires i < |readings|
    requires SameFor(th1, th2, m)
    ensures ThresholdFor(readings, i, m, cfg, staticMap, th1).0 == ThresholdFor(readings, i, m, cfg, staticMap, th2).0
    ensures SameFor(ThresholdFor(readings, i, m, cfg, staticMap, th1).1, ThresholdFor(readings, i, m, cfg, staticMap, th2).1, m)
  {
    DynamicLocal(readings, i, m, cfg, th1, th2);
  }

  /** The threshold for `m` writes only the entries for `m`. */
  lemma ThresholdFrame(readings: seq<Reading>, i: nat, m: Metric, cfg: Config, staticMap: map<string, Threshold>,
                       th: ThresholdState, other: Metric)
    requires i < |readings|
    requires other != m
    ensures SameFor(ThresholdFor(readings, i, m, cfg, staticMap, th).1, th, other)
  {
    DynamicFrame(readings, i, m, cfg, th, other);
  }

  /** The inner loop over metrics other than `m` leaves `m`'s streak, last
      alert and threshold entries alone. */
  lemma {:induction false} ProcessMetricsFrame(readings: seq<Reading>, i: nat, ms: seq<Metric>, cfg: Config,
                                               staticMap: map<string, Threshold>, st: SimState, m: Metric)
    requires i < |readings|
    requires m !in ms
    ensures var r := ProcessMetrics(readings, i, ms, cfg, staticMap, st).0;
      StreakOf(r, m) == StreakOf(st, m) && Lookup(r.lastAlertMs, m) == Lookup(st.lastAlertMs, m)
      && SameFor(r.thresholds, st.thresholds, m)
    decreases |ms|
  {
    if |ms| > 0 {
      var step := MetricStep(readings, i, ms[0], cfg, staticMap, st);
      ThresholdFrame(readings, i, ms[0], cfg, staticMap, st.thresholds, m);
      ProcessMetricsFrame(readings, i, ms[1..], cfg, staticMap, step.0, m);
    }
  }

  /** After the inner loop, `m`'s streak has been extended or reset by the
      breach test against the thresholds as they stood when the reading
      arrived. */
  lemma {:induction false} ProcessMetricsStreak(readings: seq<Reading>, i: nat, ms: seq<Metric>, cfg: Config,
                                                staticMap: map<string, Threshold>, st: SimState, m: Metric)
    requires i < |readings|
    requires m in ms
    requires forall a, b :: 0 <= a < b < |ms| ==> ms[a] != ms[b]
    ensures StreakOf(ProcessMetrics(readings, i, ms, cfg, staticMap, st).0, m)
      == (if BreachWith(readings, i, m, cfg, staticMap, st.thresholds) then StreakOf(st, m) + 1 else 0)
    decreases |ms|
  {
    var step := MetricStep(readings, i, ms[0], cfg, staticMap, st);
    if ms[0] == m {
      assert m !in ms[1..] by {
        forall k | 0 <= k < |ms[1..]| ensures ms[1..][k] != m {
          assert ms[1..][k] == ms[k + 1];
        }
      }
      ProcessMetricsFrame(readings, i, ms[1..], cfg, staticMap, step.0, m);
      assert StreakOf(step.0, m)
        == if BreachWith(readings, i, m, cfg, staticMap, st.thresholds) then StreakOf(st, m) + 1 else 0;
    } else {
      assert m in ms[1..] by {
        var k :| 0 <= k < |ms| && ms[k] == m;
        assert ms[1..][k - 1] == m;
      }
      ThresholdFrame(readings, i, ms[0], cfg, staticMap, st.thresholds, m);
      ThresholdLocal(readings, i, m, cfg, staticMap, step.0.thresholds, st.thresholds);
      assert StreakOf(step.0, m) == StreakOf(st, m);
      ProcessMetricsStreak(readings, i, ms[1..], cfg, staticMap, step.0, m);
    }
    assert ProcessMetrics(readings, i, ms, cfg, staticMap, st).0 == ProcessMetrics(readings, i, ms[1..], cfg, staticMap, step.0).0;
  }

  /** No two alerts of `alerts` are for the same metric. */
  predicate DistinctMetrics(alerts: seq<SimAlert>) {
    forall k, l :: 0 <= k < l < |alerts| ==> alerts[k].metric != alerts[l].metric
  }

  /** The inner loop visits each metric once, so over a list of distinct
      metrics it raises at most one alert per metric. */
  lemma {:induction false} ProcessMetricsOnePerMetric(readings: seq<Reading>, i: nat, ms: seq<Metric>, cfg: Config,
                                                      staticMap: map<string, Threshold>, st: SimState)
    requires i < |readings|
    requires forall a, b :: 0 <= a < b < |ms| ==> ms[a] != ms[b]
    ensures DistinctMetrics(ProcessMetrics(readings, i, ms, cfg, staticMap, st).1)
    decreases |ms|
  {
    if |ms| > 0 {
      var step := MetricStep(readings, i, ms[0], cfg, staticMap, st);
      var rest := ProcessMetrics(readings, i, ms[1..], cfg, staticMap, step.0).1;
      ProcessMetricsOnePerMetric(readings, i, ms[1..], cfg, staticMap, step.0);
      assert ms[0] !in ms[1..] by {
        forall j | 0 <= j < |ms[1..]| ensures ms[1..][j] != ms[0] { assert ms[1..][j] == ms[j + 1]; }
      }
      var r := ProcessMetrics(readings, i, ms, cfg, staticMap, st).1;
      assert r == (if step.1.Some? then [step.1.value] else []) + rest;
      assert DistinctMetrics(rest);
      if step.1.Some? {
        forall k, l | 0 <= k < l < |r| ensures r[k].metric != r[l].metric {
          if k == 0 {
            assert r[0] == step.1.value && step.1.value.metric == ms[0];
            assert r[l] == rest[l - 1] && rest[l - 1].metric in ms[1..];
            assert r[l].metric != ms[0];
          } else {
            assert r[k] == rest[k - 1] && r[l] == rest[l - 1];
            assert rest[k - 1].metric != rest[l - 1].metric;
          }
        }
      }
    }
  }

  lemma AllMetricsDistinct(m: Metric)
    ensures m in AllMetrics
    ensures forall a, b :: 0 <= a < b < |AllMetrics| ==> AllMetrics[a] != AllMetrics[b]
  {
  }

  /** The breach flags metric `m` saw over the first `n` readings. */
  ghost function Breaches(readings: seq<Reading>, staticMap: map<string, Threshold>, cfg: Config, n: nat, m: Metric)
    : (flags: seq<bool>)
    requires n <= |readings|
    ensures |flags| == n
    decreases n
  {
    if n == 0 then []
    else
      Breaches(readings, staticMap, cfg, n - 1, m)
        + [BreachWith(readings, n - 1, m, cfg, staticMap, Run(readings, staticMap, cfg, n - 1).0.thresholds)]
  }

  /** After `n` readings each metric's streak is the number of consecutive
      breaches of that metric ending at the latest reading. */
  lemma {:induction false} StreakIsTrailingBreaches(readings: seq<Reading>, staticMap: map<string, Threshold>,
                                                    cfg: Config, n: nat, m: Metric)
    requires n <= |readings|
    ensures StreakOf(Run(readings, staticMap, cfg, n).0, m) == TrailingBreaches(0, Breaches(readings, staticMap, cfg, n, m))
  {
    if n > 0 {
      StreakIsTrailingBreaches(readings, staticMap, cfg, n - 1, m);
      StreakAfterReading(readings, staticMap, cfg, n, m);
      var flags := Breaches(readings, staticMap, cfg, n - 1, m);
      var breach := BreachWith(readings, n - 1, m, cfg, staticMap, Run(readings, staticMap, cfg, n - 1).0.thresholds);
      assert Breaches(readings, staticMap, cfg, n, m) == flags + [breach];
      TrailingBreachesStep(0, flags, breach);
    } else {
      assert Run(readings, staticMap, cfg, 0).0 == InitialSimState;
    }
  }

  /** Reading `n - 1` extends metric `m`'s streak when it breaches and
      resets it otherwise. */
  lemma StreakAfterReading(readings: seq<Reading>, staticMap: map<string, Threshold>, cfg: Config, n: nat, m: Metric)
    requires 0 < n <= |readings|
    ensures var prev := Run(readings, staticMap, cfg, n - 1).0;
      StreakOf(Run(readings, staticMap, cfg, n).0, m)
        == if BreachWith(readings, n - 1, m, cfg, staticMap, prev.thresholds) then StreakOf(prev, m) + 1 else 0
  {
    var prev := Run(readings, staticMap, cfg, n - 1);
    RunStep(readings, staticMap, cfg, n);
    AllMetricsDistinct(m);
    ProcessMetricsStreak(readings, n - 1, AllMetrics, cfg, staticMap, prev.0, m);
  }

  /** One step of the outer loop: the metrics of reading `n - 1`, run from
      the state the earlier readings left. */
  lemma RunStep(readings: seq<Reading>, staticMap: map<string, Threshold>, cfg: Config, n: nat)
    requires 0 < n <= |readings|
    ensures var prev := Run(readings, staticMap, cfg, n - 1);
      var step := ProcessMetrics(readings, n - 1, AllMetrics, cfg, staticMap, prev.0);
      Run(readings, staticMap, cfg, n) == (step.0, prev.1 + step.1)
  {
  }

  lemma {:induction false} ProcessMetricsKeepsGoodState(readings: seq<Reading>, i: nat, ms: seq<Metric>, cfg: Config,
                                                        staticMap: map<string, Threshold>, st: SimState)
    requires i < |readings|
    requires SaneDynamic(cfg) && cfg.minHistoryPoints > 0 && GoodState(st.thresholds)
    ensures GoodState(ProcessMetrics(readings, i, ms, cfg, staticMap, st).0.thresholds)
    decreases |ms|
  {
    if |ms| > 0 {
      var step := MetricStep(readings, i, ms[0], cfg, staticMap, st);
      assert GoodState(step.0.thresholds);
      ProcessMetricsKeepsGoodState(readings, i, ms[1..], cfg, staticMap, step.0);
    }
  }

  /** Under a sane configuration every band the backtest caches or
      smooths into stays ordered and inside the safety bounds, however
      many readings have been replayed. */
  lemma {:induction false} RunKeepsGoodState(readings: seq<Reading>, staticMap: map<string, Threshold>, cfg: Config, n: nat)
    requires n <= |readings|
    requires SaneDynamic(cfg) && cfg.minHistoryPoints > 0
    ensures GoodState(Run(readings, staticMap, cfg, n).0.thresholds)
  {
    if n > 0 {
      RunKeepsGoodState(readings, staticMap, cfg, n - 1);
      var prev := Run(readings, staticMap, cfg, n - 1);
      assert Run(readings, staticMap, cfg, n).0 == ProcessMetrics(readings, n - 1, AllMetrics, cfg, staticMap, prev.0).0;
      ProcessMetricsKeepsGoodState(readings, n - 1, AllMetrics, cfg, staticMap, prev.0);
    }
  }
}
