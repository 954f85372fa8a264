/** The live alert engine: per-(farm, metric, rule type) breach streaks and
    cooldown stamps, a two-consecutive-breach debounce, a five-minute
    cooldown, and the per-farm tick that clamps a synthetic reading and runs
    the static and the dynamic rule for every metric. */
module Simulator {
  import opened Wrappers
  import opened Metrics
  import opened SafetyLayer
  import opened Streaks

  const CooldownMs: int := 5 * 60 * 1000
  const RequiredConsecutiveBreaches: nat := 2

  /** The two rule types, with their key and stored names. */
  datatype RuleType = Static | Dynamic {
    function Name(): string {
      match this
      case Static => "static"
      case Dynamic => "dynamic"
    }
  }

  /** `key(farmId, metric, ruleType)` = `farmId:metric:ruleType`. */
  function Key(farm: string, metric: string, ruleType: string): (k: string)
    ensures |k| == |farm| + |metric| + |ruleType| + 2
    ensures k[|farm|] == ':' && k[|farm| + |metric| + 1] == ':'
  {
    farm + ":" + metric + ":" + ruleType
  }

  /** Splitting at the last ':' recovers a colon-free suffix. */
  lemma LastSegmentUnique(a: string, r1: string, b: string, r2: string)
    requires ':' !in r1 && ':' !in r2
    requires a + ":" + r1 == b + ":" + r2
    ensures a == b && r1 == r2
  {
    var s := a + ":" + r1;
    assert s[|a|] == ':' && s[|b|] == ':';
    assert a == s[..|a|] == b;
    assert r1 == s[|a| + 1..] == r2;
  }

  /** Keys are injective on colon-free metric and rule names, which all
      metric and rule names are: the state of one (farm, metric, rule type)
      never aliases another's. */
  lemma KeyInjective(f1: string, m1: string, r1: string, f2: string, m2: string, r2: string)
    requires ':' !in m1 && ':' !in m2 && ':' !in r1 && ':' !in r2
    requires Key(f1, m1, r1) == Key(f2, m2, r2)
    ensures f1 == f2 && m1 == m2 && r1 == r2
  {
    assert (f1 + ":" + m1) + ":" + r1 == (f2 + ":" + m2) + ":" + r2;
    LastSegmentUnique(f1 + ":" + m1, r1, f2 + ":" + m2, r2);
    LastSegmentUnique(f1, m1, f2, m2);
  }

  lemma NamesColonFree(m: Metric, r: RuleType)
    ensures ':' !in m.Name() && ':' !in r.Name()
  {
  }

  /** The in-memory engine state: last alert stamp and current breach streak
      per key. Both start empty when the process starts. */
  datatype EngineState = EngineState(cooldown: map<string, int>, streak: map<string, nat>)

  const InitialState: EngineState := EngineState(map[], map[])

  /** `cooldown.get(k) || 0`. */
  function LastStamp(st: EngineState, k: string): int {
    if k in st.cooldown then st.cooldown[k] else 0
  }

  /** `inCooldown`: less than five minutes since the key's last alert, a
      never-stamped key counting as stamped at time 0. */
  predicate InCooldown(st: EngineState, farm: string, metric: string, ruleType: string, now: int)
    ensures Key(farm, metric, ruleType) in st.cooldown ==>
      (InCooldown(st, farm, metric, ruleType, now) <==> now < st.cooldown[Key(farm, metric, ruleType)] + CooldownMs)
    ensures Key(farm, metric, ruleType) !in st.cooldown ==>
      (InCooldown(st, farm, metric, ruleType, now) <==> now < CooldownMs)
  {
    now - LastStamp(st, Key(farm, metric, ruleType)) < CooldownMs
  }

  /** The cooldown is an interval: a key in cooldown at some time was in
      cooldown at every earlier time too. */
  lemma CooldownIsInterval(st: EngineState, farm: string, metric: string, ruleType: string, t1: int, t2: int)
    requires t1 <= t2
    requires InCooldown(st, farm, metric, ruleType, t2)
    ensures InCooldown(st, farm, metric, ruleType, t1)
  {
  }

  /** `stampCooldown`: record `now` as the key's last alert. */
  function StampCooldown(st: EngineState, farm: string, metric: string, ruleType: string, now: int): (st': EngineState)
    ensures LastStamp(st', Key(farm, metric, ruleType)) == now
    ensures forall t :: InCooldown(st', farm, metric, ruleType, t) <==> t - now < CooldownMs
    ensures st'.streak == st.streak
    ensures forall k :: k != Key(farm, metric, ruleType) ==> LastStamp(st', k) == LastStamp(st, k)
  {
    st.(cooldown := st.cooldown[Key(farm, metric, ruleType) := now])
  }

  function StreakOf(st: EngineState, k: string): nat {
    if k in st.streak then st.streak[k] else 0
  }

  /** `shouldEmitAlert`: a non-breach clears the key's streak and says no; a
      breach extends it and says yes once it reaches two. Saying yes does not
      reset the streak. Only this key's streak changes. */
  function ShouldEmitAlert(st: EngineState, farm: string, metric: string, ruleType: string, isBreach: bool)
    : (r: (EngineState, bool))
    ensures var k := Key(farm, metric, ruleType);
      && r.0.cooldown == st.cooldown
      && (forall k' :: k' != k ==> StreakOf(r.0, k') == StreakOf(st, k') && (k' in r.0.streak <==> k' in st.streak))
      && (!isBreach ==> k !in r.0.streak && !r.1)
      && (isBreach ==> StreakOf(r.0, k) == StreakOf(st, k) + 1
                       && (r.1 <==> StreakOf(st, k) + 1 >= RequiredConsecutiveBreaches))
  {
    var k := Key(farm, metric, ruleType);
    if !isBreach then (st.(streak := st.streak - {k}), false)
    else
      var next := StreakOf(st, k) + 1;
      (st.(streak := st.streak[k := next]), next >= RequiredConsecutiveBreaches)
  }

  /** `shouldEmitAlert` applied to a key for each breach flag in turn. */
  function FeedBreaches(st: EngineState, farm: string, metric: string, ruleType: string, flags: seq<bool>)
    : EngineState
    decreases |flags|
  {
    if |flags| == 0 then st
    else FeedBreaches(ShouldEmitAlert(st, farm, metric, ruleType, flags[0]).0, farm, metric, ruleType, flags[1..])
  }

  lemma {:induction false} FeedBreachesSnoc(st: EngineState, farm: string, metric: string, ruleType: string,
                                            flags: seq<bool>, b: bool)
    ensures FeedBreaches(st, farm, metric, ruleType, flags + [b])
         == ShouldEmitAlert(FeedBreaches(st, farm, metric, ruleType, flags), farm, metric, ruleType, b).0
    decreases |flags|
  {
    if |flags| > 0 {
      assert (flags + [b])[1..] == flags[1..] + [b];
      FeedBreachesSnoc(ShouldEmitAlert(st, farm, metric, ruleType, flags[0]).0, farm, metric, ruleType, flags[1..], b);
    } else {
      assert flags + [b] == [b];
    }
  }

  /** After any sequence of readings, a key's streak is the number of
      consecutive breaches ending at the latest one, and the engine says yes
      to a reading exactly when it breaches and that run has reached two. */
  lemma {:induction false} StreakCountsTrailingBreaches(st: EngineState, farm: string, metric: string,
                                                        ruleType: string, flags: seq<bool>)
    ensures var k := Key(farm, metric, ruleType);
      StreakOf(FeedBreaches(st, farm, metric, ruleType, flags), k) == TrailingBreaches(StreakOf(st, k), flags)
    ensures |flags| > 0 ==>
      var before := FeedBreaches(st, farm, metric, ruleType, flags[..|flags| - 1]);
      (ShouldEmitAlert(before, farm, metric, ruleType, flags[|flags| - 1]).1 <==>
         flags[|flags| - 1] && TrailingBreaches(StreakOf(st, Key(farm, metric, ruleType)), flags) >= RequiredConsecutiveBreaches)
    decreases |flags|
  {
    if |flags| > 0 {
      var init := flags[..|flags| - 1];
      var b := flags[|flags| - 1];
      assert flags == init + [b];
      StreakCountsTrailingBreaches(st, farm, metric, ruleType, init);
      FeedBreachesSnoc(st, farm, metric, ruleType, init, b);
    }
  }

  datatype Severity = High | Medium

  /** A stored live alert. The message text is not modelled; its parts
      (rule type, metric, value, limits) are kept as fields. */
  datatype Alert = Alert(farm: string, ts: int, metric: string, severity: Severity,
                         ruleType: string, value: real, low: Option<real>, high: Option<real>)

  /** The decision part of `createAlert`: inside the cooldown nothing is
      stored and the state is unchanged; otherwise one alert is stored,
      severity high for temperature and medium otherwise, and the key's stamp
      becomes `now`. */
  function CreateAlert(st: EngineState, farm: string, metric: string, ruleType: string,
                       value: real, threshold: Option<Threshold>, now: int)
    : (r: (EngineState, Option<Alert>))
    ensures InCooldown(st, farm, metric, ruleType, now) ==> r.0 == st && r.1.None?
    ensures !InCooldown(st, farm, metric, ruleType, now) ==>
      && r.1.Some?
      && r.1.value.farm == farm && r.1.value.metric == metric && r.1.value.ruleType == ruleType
      && r.1.value.ts == now && r.1.value.value == value
      && (r.1.value.severity == High <==> metric == TempF.Name())
      && LastStamp(r.0, Key(farm, metric, ruleType)) == now
    ensures r.0.streak == st.streak
    ensures forall k :: k != Key(farm, metric, ruleType) ==> LastStamp(r.0, k) == LastStamp(st, k)
  {
    if InCooldown(st, farm, metric, ruleType, now) then (st, None)
    else
      var severity := if metric == TempF.Name() then High else Medium;
      var low := if threshold.Some? then threshold.value.low else None;
      var high := if threshold.Some? then threshold.value.high else None;
      (StampCooldown(st, farm, metric, ruleType, now),
       Some(Alert(farm, now, metric, severity, ruleType, value, low, high)))
  }

  /** One rule for one metric: debounce, then the cooldown-guarded insert.
      An alert is stored exactly when the value breaches, the key's streak
      reaches two with it, and the key is out of cooldown; the streak is
      extended or cleared by the breach, and the stamp moves to `now`
      exactly when an alert is stored. */
  function RunRule(st: EngineState, farm: string, m: Metric, rule: RuleType, value: real,
                   threshold: Option<Threshold>, now: int)
    : (r: (EngineState, seq<Alert>))
    ensures |r.1| <= 1
    ensures var k := Key(farm, m.Name(), rule.Name());
      |r.1| == 1 <==> IsBreach(value, threshold) && StreakOf(st, k) + 1 >= RequiredConsecutiveBreaches
                      && !InCooldown(st, farm, m.Name(), rule.Name(), now)
    ensures var k := Key(farm, m.Name(), rule.Name());
      StreakOf(r.0, k) == if IsBreach(value, threshold) then StreakOf(st, k) + 1 else 0
    ensures var k := Key(farm, m.Name(), rule.Name());
      LastStamp(r.0, k) == if |r.1| == 1 then now else LastStamp(st, k)
    ensures forall a :: a in r.1 ==>
      && a.farm == farm && a.ts == now && a.metric == m.Name() && a.ruleType == rule.Name()
      && a.value == value && (a.severity == High <==> m == TempF)
    ensures forall k :: k != Key(farm, m.Name(), rule.Name()) ==>
      LastStamp(r.0, k) == LastStamp(st, k) && StreakOf(r.0, k) == StreakOf(st, k)
  {
    var (st1, emit) := ShouldEmitAlert(st, farm, m.Name(), rule.Name(), IsBreach(value, threshold));
    if !emit then (st1, [])
    else
      var (st2, alert) := CreateAlert(st1, farm, m.Name(), rule.Name(), value, threshold, now);
      (st2, if alert.Some? then [alert.value] else [])
  }

  /** A synthetic reading before clamping (the random and seasonal parts are
      outside the model). */
  datatype RawValues = RawValues(tempF: real, rhPct: real, soilMoisturePct: real, tankPct: real)

  /** The stored reading: humidity clamped to [15, 99], soil moisture to
      [5, 90] and tank level to [0, 100]; temperature as generated. */
  function ClampRaw(raw: RawValues): (v: RawValues)
    ensures v.tempF == raw.tempF
    ensures 15.0 <= v.rhPct <= 99.0 && 5.0 <= v.soilMoisturePct <= 90.0 && 0.0 <= v.tankPct <= 100.0
    ensures 15.0 <= raw.rhPct <= 99.0 ==> v.rhPct == raw.rhPct
    ensures 5.0 <= raw.soilMoisturePct <= 90.0 ==> v.soilMoisturePct == raw.soilMoisturePct
    ensures 0.0 <= raw.tankPct <= 100.0 ==> v.tankPct == raw.tankPct
  {
    RawValues(raw.tempF, Clamp(raw.rhPct, 15.0, 99.0), Clamp(raw.soilMoisturePct, 5.0, 90.0),
              Clamp(raw.tankPct, 0.0, 100.0))
  }

  function MetricValue(v: RawValues, m: Metric): real {
    match m
    case TempF => v.tempF
    case RhPct => v.rhPct
    case SoilMoisturePct => v.soilMoisturePct
  }

  function DynamicThreshold(dynamicMap: map<string, Band>, m: Metric): Option<Threshold> {
    if m.Name() in dynamicMap then Some(AsThreshold(dynamicMap[m.Name()])) else None
  }

  /** Both rules for the metrics from index `i` on, static before dynamic. */
  function RunMetrics(st: EngineState, farm: string, v: RawValues, staticMap: map<string, Threshold>,
                      dynamicMap: map<string, Band>, now: int, i: nat)
    : (r: (EngineState, seq<Alert>))
    requires i <= |AllMetrics|
    ensures |r.1| <= 2 * (|AllMetrics| - i)
    ensures forall a :: a in r.1 ==> a.farm == farm && a.ts == now
    ensures forall k :: (forall j, rule: RuleType :: i <= j < |AllMetrics| ==> k != Key(farm, AllMetrics[j].Name(), rule.Name())) ==>
      LastStamp(r.0, k) == LastStamp(st, k) && StreakOf(r.0, k) == StreakOf(st, k)
    decreases |AllMetrics| - i
  {
    if i == |AllMetrics| then (st, [])
    else
      var m := AllMetrics[i];
      var (st1, a1) := RunRule(st, farm, m, Static, MetricValue(v, m), Lookup(staticMap, m.Name()), now);
      var (st2, a2) := RunRule(st1, farm, m, Dynamic, MetricValue(v, m), DynamicThreshold(dynamicMap, m), now);
      var (st3, rest) := RunMetrics(st2, farm, v, staticMap, dynamicMap, now, i + 1);
      (st3, a1 + a2 + rest)
  }

  /** `tickSimulator` for one farm, with the generated values and the clock
      as inputs: the clamped reading to store and the alerts raised. Only
      this farm's keys change. */
  function TickFarm(st: EngineState, farm: string, raw: RawValues, staticMap: map<string, Threshold>,
                    dynamicMap: map<string, Band>, now: int)
    : (r: (EngineState, RawValues, seq<Alert>))
    ensures r.1 == ClampRaw(raw)
    ensures |r.2| <= 6
    ensures forall a :: a in r.2 ==> a.farm == farm && a.ts == now
    ensures forall f, m, rule :: f != farm && ':' !in m && ':' !in rule ==>
      LastStamp(r.0, Key(f, m, rule)) == LastStamp(st, Key(f, m, rule)) &&
      StreakOf(r.0, Key(f, m, rule)) == StreakOf(st, Key(f, m, rule))
  {
    var v := ClampRaw(raw);
    var (st', alerts) := RunMetrics(st, farm, v, staticMap, dynamicMap, now, 0);
    forall f, m, rule | f != farm && ':' !in m && ':' !in rule
      ensures LastStamp(st', Key(f, m, rule)) == LastStamp(st, Key(f, m, rule))
      ensures StreakOf(st', Key(f, m, rule)) == StreakOf(st, Key(f, m, rule))
    {
      OtherFarmKeyDistinct(f, m, rule, farm);
    }
    (st', v, alerts)
  }

  /** A key of another farm is none of this farm's metric/rule keys. */
  lemma OtherFarmKeyDistinct(f: string, m: string, rule: string, farm: string)
    requires f != farm && ':' !in m && ':' !in rule
    ensures forall j, r: RuleType :: 0 <= j < |AllMetrics| ==> Key(f, m, rule) != Key(farm, AllMetrics[j].Name(), r.Name())
  {
    forall j, r: RuleType | 0 <= j < |AllMetrics|
      ensures Key(f, m, rule) != Key(farm, AllMetrics[j].Name(), r.Name())
    {
      NamesColonFree(AllMetrics[j], r);
      if Key(f, m, rule) == Key(farm, AllMetrics[j].Name(), r.Name()) {
        KeyInjective(f, m, rule, farm, AllMetrics[j].Name(), r.Name());
      }
    }
  }
}
