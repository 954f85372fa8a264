# Polynova-DTL threshold, alert and evaluation core in Dafny

This project models the arithmetic core of the Polynova-DTL backend. Polynova-DTL is a farm-telemetry service. It watches temperature, relative humidity and soil moisture, and compares two ways of alerting:

- static per-farm thresholds;
- dynamic thresholds derived from rolling quantiles.

The model covers:

- **Safety layer.** The safety bounds, `clamp` and `blendStep`. These are `SafetyLayer` in `safety_layer.dfy`.
- **Quantiles.** The linear-interpolation quantile, at position (n−1)·q, from both the engine and the backtest. This is `Quantiles` in `quantile.dfy`, built on insertion sort in `sorting.dfy`.
- **Periodic recompute.** The recompute in `recomputeDynamicThresholds`: quantile ± margin, clamp, crossing repair, and a bounded-step blend with the previous snapshot. This is `DynamicEngine`.
- **Backtest.** The offline backtest of `run-experiments-cli.js`: `ema`, `dynamicThresholdFor` with its cache and EMA state, and the debounce and cooldown state machine of `simulateAlerts`. This is `Backtest` in `backtest.dfy`.
- **Live engine.** The live alert engine of `simulator.js`. It covers the per-(farm, metric, rule type) streak and cooldown maps, `shouldEmitAlert`, the decision part of `createAlert`, and the clamping and rule loop of `tickSimulator`. The clock and the generated values are parameters. This is `Simulator`.
- **Scorers.** The two scorers, kept apart because they deliberately differ:
  - `score` of the backtest has a 30-minute lead window, and its false-alert rate is over tp + fp. This is `Scorer`.
  - The matching and metric block of `evaluateExperiment` has no lead window, and its false-alert rate is over all alerts. This is `Evaluator`.
- **Ground-truth synthesizer.** `seed-ground-truth-cli.js` as `GroundTruth`: index clamping, median step, arg-min and arg-max scans, the exhaustive 2–4 hour soil-moisture drop search, the recovery-jump search and the non-overlap pass.
- **Importer.** The CSV importer as `Importer`: `parseCsvLine`, line splitting and blank-line filtering, row building, `cToF`, `deriveSoilMoisture`, `deriveTankPct`, and the accept/skip/error accounting of `importReadingsCsv`.
- **Placeholder renumbering.** `toPgSql` from `db.js`, which renumbers `?` placeholders as `$1..$k`. This is `PgSql`, with `Decimal` for the decimal rendering of `k`.
- **Static thresholds.** The "first row per metric wins" fold of `getStaticThresholdMap`. This is `StaticEngine`.

Conventions:

- Timestamps are `int` milliseconds. Sensor values, margins and rates are `real`.
- Nullable values are `Option`. Objects keyed by metric or key string are `map`s.
- Database reads become sequence parameters and database writes become returned records.
- The store's insert outcome for the k-th data line of an import is a parameter `accepts(k)`.
- JavaScript's `Date` and `Number` parsing become the parameter functions of `Importer.Parsers`.

Points where the model makes a source behaviour explicit:

- `quantile` reads the sorted copy at `floor((n−1)·q)`. Wherever that index lies inside the copy the model gives the same number as the source, including a q a little above 1 whose index is still n − 1. Where the index lies outside the copy (a negative q, or a q so large that the index reaches n) the source reads `undefined` and yields `undefined` or `NaN`; here it yields `None`.
- `Math.round` rounds half up. It is modelled as `floor(x + 1/2)`.
- The `Infinity` / `-Infinity` sentinels of the searches become `None` ("nothing found yet").
- The ground-truth step is `Math.max(1, …)`, so it is never zero. The functions that divide by it require `stepMin != 0`.
- `enforceNonOverlap` clamps each event into the history's span after moving it past the previous one. The clamp at the end of the span can re-create an overlap; `GroundTruth.ClampCanReintroduceOverlap` shows an instance. The separation proved (`GroundTruth.EnforceNonOverlapSeparates`) is therefore "starts after the previous end, or ends at the end of the span".
- In the backtest, `quantile(history, q) - margin` with an empty history subtracts from `null`, which JavaScript treats as 0. `Backtest.RawBand` does the same. With `minHistoryPoints > 0`, which both shipped dynamic configurations have, this cannot happen.
- `evaluateExperiment` pushes a lead time only when `leadMin >= 0`. A matching alert lies inside its event, so the guard always holds. `Evaluator.Tally` pushes every lead and proves each one ≥ 0.
- `importReadingsCsv` lower-cases `tempUnit` before comparing it with `'c'`. The model accepts exactly `"c"` and `"C"`, which are the only strings whose lower-case form is `"c"`.

## Model

| member | source | states |
|---|---|---|
| SafetyLayer.SafetyBounds | backend/src/safetyLayer.js:1-5 | every metric's safety band has low < high |
| SafetyLayer.Clamp | backend/src/safetyLayer.js:7-9 | the result lies in [low, high] when low ≤ high; a value already in range is returned unchanged; a value below low gives low and one above high gives high |
| SafetyLayer.ClampMonotone | backend/src/safetyLayer.js:7-9 | clamping to a fixed range preserves the order of its inputs |
| SafetyLayer.Sign | backend/src/safetyLayer.js:14 | `Math.sign` on reals: the result is −1, 0 or 1, multiplying it by x gives |x|, and it is 0 exactly for x = 0 |
| SafetyLayer.BlendStep | backend/src/safetyLayer.js:11-15 | no previous value gives next; otherwise the result is next exactly when next is within maxStep of previous; for maxStep ≥ 0 the result moves at most maxStep from previous and lies between previous and next |
| SafetyLayer.BlendStepIsClampAroundPrevious | backend/src/safetyLayer.js:11-15 | for maxStep ≥ 0, a blend step equals clamping next into [previous − maxStep, previous + maxStep], an independent characterisation |
| SafetyLayer.BlendStepFixedPoint | backend/src/safetyLayer.js:13 | blending a value into itself leaves it unchanged |
| SafetyLayer.BlendStepMonotone | backend/src/safetyLayer.js:13-14 | the blend step is monotone non-decreasing in previous and in next together |
| Metrics.IsBreach | backend/src/run-experiments-cli.js:94-99 | an absent threshold never breaches; otherwise a breach is exactly a value below a present low or above a present high (the same function is at backend/src/simulator.js:95-100) |
| Metrics.BreachIffOutsideBand | backend/src/simulator.js:95-100 | for a band with both bounds present, a breach is exactly a value outside [low, high] |
| Sorting.Insert | backend/src/dynamicEngine.js:15 | inserting into a sorted sequence keeps it sorted and adds exactly the new element to the multiset of elements |
| Sorting.SortBy | backend/src/seed-ground-truth-cli.js:71 | the output is sorted by the key and is a permutation of the input |
| Sorting.SortReals | backend/src/dynamicEngine.js:15 | `[...values].sort((a, b) => a - b)`: the output is ascending and a permutation of the input |
| Sorting.AscendingUnique | backend/src/dynamicEngine.js:15 | two ascending sequences with the same multiset of elements are equal, so the sorted copy is determined by the values alone |
| Sorting.SortRealsPermutationInvariant | backend/src/run-experiments-cli.js:30 | permuting the input does not change the sorted copy |
| Quantiles.Min | backend/src/dynamicEngine.js:13-23 | the least element of a non-empty sequence, and an element of it |
| Quantiles.Max | backend/src/dynamicEngine.js:13-23 | the greatest element of a non-empty sequence, and an element of it |
| Quantiles.ReadAt | backend/src/dynamicEngine.js:16-22 | on an ascending sequence and a position in [0, n−1], the reading is defined and lies between the first and the last element |
| Quantiles.ReadAtBetween | backend/src/dynamicEngine.js:19-20 | when an element follows the one at the floor of the position, interpolating between the two on an ascending sequence stays between the first and the last element |
| Quantiles.SortedQuantile | backend/src/dynamicEngine.js:16-22 | on an ascending sequence and q in [0, 1], the quantile is defined and lies between the first and last element |
| Quantiles.PositionIsProduct | backend/src/dynamicEngine.js:16 | the read position is (n − 1)·q |
| Quantiles.PositionInRange | backend/src/dynamicEngine.js:16 | for q in [0, 1] the read position lies in [0, n − 1] |
| Quantiles.PositionMonotone | backend/src/dynamicEngine.js:16 | the read position grows with q |
| Quantiles.PositionEnds | backend/src/dynamicEngine.js:16 | q = 0 reads at 0 and q = 1 reads at n − 1 |
| Quantiles.Quantile | backend/src/dynamicEngine.js:13-23 | empty input gives null; for non-empty input and q in [0, 1] the result is defined and lies between the minimum and the maximum |
| Quantiles.QuantileEnds | backend/src/run-experiments-cli.js:28-38 | q = 0 gives the minimum and q = 1 the maximum |
| Quantiles.ReadAtFirst | backend/src/dynamicEngine.js:19-22 | reading at position 0 gives the first element |
| Quantiles.ReadAtLast | backend/src/dynamicEngine.js:19-22 | reading at position n − 1 gives the last element, with no element after it |
| Quantiles.SortedEnds | backend/src/dynamicEngine.js:15 | a sorted permutation starts at the minimum, ends at the maximum, and stays between them |
| Quantiles.InterpolationBetween | backend/src/dynamicEngine.js:20 | interpolating between a ≤ b with a fraction in [0, 1) stays in [a, b] |
| Quantiles.QuantilePermutationInvariant | backend/src/run-experiments-cli.js:28-38 | the quantile depends only on the multiset of the values, not their order |
| Quantiles.ReadAtMonotone | backend/src/dynamicEngine.js:16-22 | on an ascending sequence, reading further along never gives a smaller value |
| Quantiles.ReadAtBounds | backend/src/dynamicEngine.js:17-22 | the reading lies between the element at the floor of the position and the next one |
| Quantiles.ReadAtSameBase | backend/src/dynamicEngine.js:17-20 | two positions with the same floor read in order |
| Quantiles.SortedQuantileMonotone | backend/src/dynamicEngine.js:13-23 | on a sorted sequence the quantile is monotone in q |
| Quantiles.QuantileMonotone | backend/src/dynamicEngine.js:13-23 | for non-empty input and 0 ≤ q1 ≤ q2 ≤ 1 the q1-quantile is at most the q2-quantile |
| DynamicEngine.BandMargin | backend/src/dynamicEngine.js:7-11 | every metric's margin is non-negative |
| DynamicEngine.Column | backend/src/dynamicEngine.js:40-44 | the metric's column holds exactly that metric's value of each row, in row order |
| DynamicEngine.ClampedBand | backend/src/dynamicEngine.js:48-54 | the margin-widened quantile band, after clamping, is ordered and lies within the metric's safety bounds |
| DynamicEngine.RepairCrossing | backend/src/dynamicEngine.js:55-59 | the result is ordered; an ordered band is unchanged; a crossed band becomes the width-2 band with the same midpoint |
| DynamicEngine.CrossingRepairNeverFires | backend/src/dynamicEngine.js:5-11 | because Q_LOW ≤ Q_HIGH and the margins are non-negative, the crossing repair never changes the clamped band |
| DynamicEngine.BlendWithPrevious | backend/src/dynamicEngine.js:68-71 | without a previous snapshot the candidate is kept; with one, each bound moves at most 2 from the previous bound |
| DynamicEngine.RecomputeMetric | backend/src/dynamicEngine.js:47-71 | with no previous snapshot the stored band is the clamped band and within safety; with one, each bound is within 2 of the previous |
| DynamicEngine.RecomputePreservesSafety | backend/src/dynamicEngine.js:53-71 | a previous snapshot that was ordered and within safety gives a new stored band that is too |
| DynamicEngine.RecomputeFarm | backend/src/dynamicEngine.js:38-78 | a farm with fewer than 20 rows gets no writes; otherwise one row per metric in order, stamped with the given time and window, equal to the clamped band without a previous snapshot and within 2 of the previous one with it |
| DynamicEngine.RecomputeFarmSafe | backend/src/dynamicEngine.js:53-76 | when every previous snapshot is ordered and safe, every written band is |
| StaticEngine.FirstIndexOf | backend/src/staticEngine.js:11-14 | none exactly when no row has the metric; otherwise the first row in input order with that metric |
| StaticEngine.FoldFirst | backend/src/staticEngine.js:11-14 | the fold keeps existing entries and adds, for each new metric present in the rows, the band of its first row |
| StaticEngine.FirstRowPerMetric | backend/src/staticEngine.js:11-14 | the map has a key for a metric exactly when some row has it, and the entry is the (low, high) of the first such row (the same fold is at backend/src/run-experiments-cli.js:87-91) |
| StaticEngine.FoldFirstAppend | backend/src/staticEngine.js:12-13 | folding over concatenated rows is folding over the second part starting from the first part's result |
| StaticEngine.LaterRowsNeverOverride | backend/src/staticEngine.js:13 | appending rows never changes an entry already present |
| StaticEngine.LatestEffectiveWins | backend/src/staticEngine.js:5-14 | with rows ordered by effective_from descending, a metric present in some row has an entry, and that entry is the band of a row with the latest effective_from for the metric |
| Backtest.Ema | backend/src/run-experiments-cli.js:40-43 | no previous value gives next; for alpha in [0, 1] the result lies between previous and next |
| Backtest.EmaBetween | backend/src/run-experiments-cli.js:42 | the weighted average with alpha in [0, 1] lies between its two arguments |
| Backtest.EmaFixedPoint | backend/src/run-experiments-cli.js:42 | feeding the EMA its own value leaves it there |
| Backtest.EmaConverges | backend/src/run-experiments-cli.js:42 | for alpha in (0, 1], each step strictly shrinks the distance to the new value |
| Backtest.EmaMonotone | backend/src/run-experiments-cli.js:42 | for alpha in [0, 1], the EMA is monotone in the previous value and in the new value together |
| Backtest.EmaKeepsOrder | backend/src/run-experiments-cli.js:141-142 | smoothing an ordered band into an ordered previous band, bound by bound, gives an ordered band |
| Backtest.WindowValues | backend/src/run-experiments-cli.js:121-125 | one value per reading whose time lies in [from, to], and every value is the metric's value of such a reading |
| Backtest.WindowValuesAppend | backend/src/run-experiments-cli.js:121-125 | the window values of a concatenation are those of its parts in order, so the history keeps the readings' order |
| Backtest.RawBand | backend/src/run-experiments-cli.js:130-136 | both clamped bounds lie within the safety bounds, and for ordered quantile knobs, a non-negative margin and a non-empty history the band is ordered |
| Backtest.History | backend/src/run-experiments-cli.js:108-125 | one value per reading 0..idx whose time lies within `windowHours` before reading idx, and only the metric's values of such readings |
| Backtest.Smoothed | backend/src/run-experiments-cli.js:134-142 | without EMA state the band is the raw band; with sane knobs, a non-empty history and a safe previous state the smoothed band is ordered and safe |
| Backtest.DynamicThresholdFor | backend/src/run-experiments-cli.js:107-154 | a fresh cache returns the cached band with the state unchanged; a short history returns null with the state unchanged; otherwise it returns the smoothed band and writes it to the cache, the EMA state and the update time; sane knobs with a positive history minimum keep every stored band ordered and safe |
| Backtest.ShippedConfigsSane | backend/src/run-experiments-cli.js:323-422 | both shipped dynamic configurations have ordered quantile knobs in [0, 1], non-negative margins, alpha in [0, 1] and a positive history minimum; all three have non-negative cooldowns |
| Backtest.DebounceStep | backend/src/run-experiments-cli.js:183-196 | a non-breach resets the streak and emits nothing; a breach extends the streak by one without resetting it on emit; an alert is emitted exactly when breach, streak ≥ needed, and no earlier alert or the cooldown has elapsed |
| Backtest.StreakCountsRun | backend/src/run-experiments-cli.js:185-186 | feeding breach flags one by one leaves the streak equal to the number of trailing breaches |
| Backtest.ThresholdFor | backend/src/run-experiments-cli.js:174-179 | the static kind uses the static map and leaves the state alone; the dynamic kind uses the dynamic band and falls back to the static entry when it is null |
| Backtest.MetricStep | backend/src/run-experiments-cli.js:174-196 | one metric of one reading: the streak and alert decision follow the debounce step, an emitted alert carries the reading's time and metric and updates the last alert time, and the threshold state is the one the threshold lookup left |
| Backtest.ProcessMetrics | backend/src/run-experiments-cli.js:173-197 | at most one alert per visited metric position, so at most as many alerts as metrics visited, each with the reading's timestamp and one of the visited metrics |
| Backtest.ProcessMetricsOnePerMetric | backend/src/run-experiments-cli.js:173-197 | over a list of distinct metrics, such as the fixed metric list the loop walks, no two alerts of one reading are for the same metric |
| Backtest.Run | backend/src/run-experiments-cli.js:169-198 | after n readings at most three alerts per reading |
| Backtest.SimulateAlerts | backend/src/run-experiments-cli.js:161-201 | at most three alerts per reading, each stamped with the timestamp of some reading |
| Backtest.RunTimestamps | backend/src/run-experiments-cli.js:195 | every alert of a prefix run carries the timestamp of a reading |
| Backtest.MetricStepSpaced | backend/src/run-experiments-cli.js:190-196 | one metric step keeps same-metric alerts at least their cooldown apart and records every alert's time as at most its metric's last alert time |
| Backtest.ProcessMetricsSpaced | backend/src/run-experiments-cli.js:173-197 | the inner loop keeps the cooldown spacing and the record of last alert times |
| Backtest.RunSpaced | backend/src/run-experiments-cli.js:169-198 | after any prefix of readings, same-metric alerts are spaced by at least the cooldown |
| Backtest.AlertsRespectCooldown | backend/src/run-experiments-cli.js:190-196 | with non-negative cooldowns, any two alerts `simulateAlerts` pushes for one metric are at least that metric's cooldown apart, whatever the order of the readings |
| Backtest.DynamicLocal | backend/src/run-experiments-cli.js:113-151 | the dynamic estimator for a metric reads only that metric's cache, EMA and update entries |
| Backtest.DynamicFrame | backend/src/run-experiments-cli.js:149-151 | the dynamic estimator for a metric writes only that metric's entries |
| Backtest.ThresholdLocal | backend/src/run-experiments-cli.js:174-179 | the threshold for a metric depends only on that metric's state entries |
| Backtest.ThresholdFrame | backend/src/run-experiments-cli.js:174-179 | computing one metric's threshold leaves other metrics' state entries alone |
| Backtest.ProcessMetricsFrame | backend/src/run-experiments-cli.js:173-197 | the inner loop over other metrics leaves a metric's streak, last alert and threshold entries alone |
| Backtest.ProcessMetricsStreak | backend/src/run-experiments-cli.js:181-186 | after the inner loop a metric's streak is extended by its breach against the thresholds as they stood when the reading arrived, or reset |
| Backtest.AllMetricsDistinct | backend/src/run-experiments-cli.js:13 | the metric list holds every metric exactly once |
| Backtest.Breaches | backend/src/run-experiments-cli.js:181 | the breach flags of a metric over the first n readings, one per reading |
| Backtest.StreakIsTrailingBreaches | backend/src/run-experiments-cli.js:183-186 | after any number of readings, each metric's streak equals the number of consecutive breaches of that metric ending at the latest reading |
| Backtest.StreakAfterReading | backend/src/run-experiments-cli.js:185-186 | one reading extends a metric's streak on a breach and resets it otherwise |
| Backtest.ProcessMetricsKeepsGoodState | backend/src/run-experiments-cli.js:145-151 | with sane knobs and a positive history minimum, the inner loop keeps the cache and EMA state consistent and every stored band ordered and safe |
| Backtest.RunKeepsGoodState | backend/src/run-experiments-cli.js:145-151 | with sane knobs and a positive history minimum, the threshold state stays consistent and safe across the whole run |
| Simulator.Key | backend/src/simulator.js:10-12 | the key is farm, metric and rule type joined by two colons at fixed positions |
| Simulator.LastSegmentUnique | backend/src/simulator.js:11 | splitting at a last colon followed by a colon-free suffix is unique |
| Simulator.KeyInjective | backend/src/simulator.js:10-12 | on colon-free metric and rule names, equal keys come from equal (farm, metric, rule type) triples, so keys never alias |
| Simulator.NamesColonFree | backend/src/simulator.js:141-150 | metric and rule type names contain no colon |
| Simulator.InCooldown | backend/src/simulator.js:14-18 | a stamped key is in cooldown exactly before its stamp plus 5 minutes; a never-stamped key, read as stamped at 0 by `|| 0`, exactly before time 5 minutes |
| Simulator.CooldownIsInterval | backend/src/simulator.js:14-18 | the cooldown is an interval of time: a key in cooldown at some time is in cooldown at every earlier time |
| Simulator.StampCooldown | backend/src/simulator.js:20-22 | the key's stamp becomes now, so the key is in cooldown exactly for times less than 5 minutes later; streaks and other keys' stamps are unchanged |
| Simulator.ShouldEmitAlert | backend/src/simulator.js:24-34 | a non-breach clears the key's streak and says no; a breach increments it and says yes exactly when the new streak is at least 2, without resetting it; no other key's streak and no cooldown changes |
| Simulator.FeedBreachesSnoc | backend/src/simulator.js:24-34 | feeding one more flag is one more `shouldEmitAlert` call on the state the earlier flags left |
| Simulator.StreakCountsTrailingBreaches | backend/src/simulator.js:24-34 | after any flags, the key's streak is the run of trailing breaches, and the engine says yes exactly when the latest reading breaches and that run has reached 2 |
| Simulator.CreateAlert | backend/src/simulator.js:102-115 | in cooldown nothing is stored and the state is unchanged; otherwise one alert is stored for the farm, metric, rule and time, with severity high exactly for temp_f, and the key's stamp becomes now; streaks and other keys are unchanged |
| Simulator.RunRule | backend/src/simulator.js:102-150 | one rule for one metric stores at most one alert, and one exactly when the value breaches, the key's streak reaches the required count with it and the key is out of cooldown; the streak is extended by a breach and cleared otherwise; the stamp moves to now exactly when an alert is stored; the alert carries the farm, time, metric, rule and value, with high severity exactly for temperature; no other key changes |
| Simulator.ClampRaw | backend/src/simulator.js:128-130 | humidity lands in [15, 99], soil in [5, 90] and tank in [0, 100], in-range values are unchanged, and temperature is kept |
| Simulator.RunMetrics | backend/src/simulator.js:141-151 | at most two alerts per remaining metric, all for this farm and time, and only keys of the remaining metrics change |
| Simulator.TickFarm | backend/src/simulator.js:119-152 | the stored reading is the clamped one, at most six alerts for this farm and time, and no key of another farm changes |
| Simulator.OtherFarmKeyDistinct | backend/src/simulator.js:10-12 | a key of another farm is none of this farm's metric and rule keys |
| Events.EventMappedMetric | backend/src/run-experiments-cli.js:16-22 | exactly the five known event types map to a metric, and the mapped value is always a metric name (the same map is at backend/src/evaluator.js:7-13) |
| Events.MappedEvents | backend/src/run-experiments-cli.js:211 | the kept events are exactly the input events with a mapped type |
| Events.MappedEventsCounts | backend/src/run-experiments-cli.js:211 | a mapped event is kept as often as it occurs in the input and an unmapped one never |
| Events.MappedEventsAppend | backend/src/run-experiments-cli.js:211 | filtering distributes over concatenation, so the kept events stay in input order |
| Stats.Sum | backend/src/run-experiments-cli.js:257 | `reduce` with `+` from 0: no values sum to 0 and a single value to itself |
| Stats.SumAppend | backend/src/run-experiments-cli.js:257 | the sum of a concatenation is the sum of the sums of its parts |
| Stats.Mean | backend/src/evaluator.js:133-137 | no values have mean 0 (the same mean is at backend/src/run-experiments-cli.js:257) |
| Stats.MeanTimesCount | backend/src/run-experiments-cli.js:257 | the mean of a non-empty sequence times its length is its sum |
| Stats.SumBounds | backend/src/run-experiments-cli.js:257 | the sum of n values in [lo, hi] lies in [n·lo, n·hi] |
| Stats.MeanBounds | backend/src/run-experiments-cli.js:257 | the mean of a non-empty sequence of values in [lo, hi] lies in [lo, hi] |
| Stats.SumAtMost | backend/src/run-experiments-cli.js:257 | the sum of n values at most hi is at most n·hi |
| Stats.MeanAtMost | backend/src/run-experiments-cli.js:257 | the mean of values at most hi ≥ 0, and the 0 of no values, is at most hi |
| Stats.Shares | backend/src/run-experiments-cli.js:253-256 | two shares of a positive total lie in [0, 1] and add up to 1 |
| Stats.RatioOrNull | backend/src/run-experiments-cli.js:253-254 | null exactly when the denominator is 0; a part of the whole lies in [0, 1] |
| Stats.RatioOrZero | backend/src/run-experiments-cli.js:255-256 | 0 for a zero denominator; a part of the whole lies in [0, 1] |
| Stats.RatioInUnitIfBelow | backend/src/run-experiments-cli.js:253-256 | a count over a larger positive count lies in [0, 1] |
| Stats.ComplementaryShares | backend/src/run-experiments-cli.js:253-256 | precision and false-alert rate over the same positive total add up to 1 |
| Stats.RatioInUnit | backend/src/evaluator.js:129-130 | a non-negative part over a positive whole lies in [0, 1] |
| Scorer.Intersects | backend/src/run-experiments-cli.js:54-65 | false for unmapped event types and for an alert of another metric; otherwise true exactly when start − 30 min ≤ alert time ≤ end |
| Scorer.EarliestMatchTs | backend/src/run-experiments-cli.js:222-234 | none exactly when no alert intersects the event; otherwise the time of an intersecting alert that is no later than any other |
| Scorer.CountDetected | backend/src/run-experiments-cli.js:221-236 | at most one true positive per event |
| Scorer.DetectedCount | backend/src/run-experiments-cli.js:221-236 | tp is the number of events some alert intersects, one per event however many alerts match it |
| Scorer.CountMissed | backend/src/run-experiments-cli.js:228-231 | every event is either detected or missed |
| Scorer.LeadTimes | backend/src/run-experiments-cli.js:238-239 | one lead time per detected event, each at most 30 minutes |
| Scorer.LeadTimesAt | backend/src/run-experiments-cli.js:221-239 | the lead of the k-th event, when detected, is its start minus its earliest matching alert in minutes and sits after one lead per detected event before it; it is positive exactly when that alert came before the start |
| Scorer.LeadAtMostWindow | backend/src/run-experiments-cli.js:62-64 | the earliest matching alert is at most 30 minutes before the event start |
| Scorer.CountUnmatchedAlerts | backend/src/run-experiments-cli.js:243-247 | the false positives are at most the alerts |
| Scorer.UnmatchedCount | backend/src/run-experiments-cli.js:243-247 | fp is the number of alerts that intersect no mapped event |
| Scorer.Score | backend/src/run-experiments-cli.js:210-275 | tp is the number of mapped events with an intersecting alert and fn the number without one; tp + fn is the number of mapped events; mapped + ignored is all events; fp counts the alerts intersecting no mapped event and is at most the alerts; precision, recall and both rates are the stated ratios; the lead time is the mean of the per-event leads and at most 30; the label is stable exactly with no alerts and no mapped events, and event window exactly with mapped events; alerts per day is the count over the period in days |
| Scorer.ScoreCounts | backend/src/run-experiments-cli.js:221-247 | tp is the size of the set of mapped events some alert intersects, fn the mapped events outside that set, and fp the size of the set of alerts intersecting no mapped event |
| Scorer.AlertsPerDay | backend/src/run-experiments-cli.js:258 | alerts per day times the period in days is the number of alerts, and it is not negative |
| Scorer.ScoreRates | backend/src/run-experiments-cli.js:253-256 | precision is null exactly when tp + fp = 0 and recall exactly when tp + fn = 0; every rate lies in [0, 1]; precision plus false-alert rate and recall plus miss rate are 1 |
| Scorer.RatePair | backend/src/run-experiments-cli.js:253-256 | a share over tp + x is null exactly for a zero total, lies in [0, 1], and adds up to 1 with its complement |
| Evaluator.Matches | backend/src/evaluator.js:80-86 | a matching alert has the event's mapped metric and a time in [start, end]: there is no lead window |
| Evaluator.EarliestMatchTs | backend/src/evaluator.js:80-90 | none exactly when no alert matches; otherwise the time of a matching alert no later than any other, inside the event |
| Evaluator.Tally | backend/src/evaluator.js:72-100 | one lead time per tp, each ≥ 0 |
| Evaluator.TallyCoversMapped | backend/src/evaluator.js:72-100 | unmapped events are neither tp nor fn, so tp + fn is the number of mapped events |
| Evaluator.TallyCountsDetected | backend/src/evaluator.js:72-100 | tp is the number of events some alert matches, one per event however many alerts match it |
| Evaluator.TallyAppend | backend/src/evaluator.js:72-100 | tallying a concatenation adds the counts of its parts and keeps the lead times in event order |
| Evaluator.TallyLeadAt | backend/src/evaluator.js:88-96 | the lead of the k-th event, when matched, is the minutes from its start to its earliest matching alert, and sits after one lead per matched event before it |
| Evaluator.DetectedIffMatched | backend/src/evaluator.js:80-90 | an event has an earliest matching alert exactly when some alert matches it, and then its type is mapped |
| Evaluator.UsedIds | backend/src/evaluator.js:103-119 | an id is used exactly when an alert with that id matches some event |
| Evaluator.CountUnused | backend/src/evaluator.js:121-123 | the alerts with an unused id are at most the alerts |
| Evaluator.Evaluate | backend/src/evaluator.js:65-140 | tp + fn is the number of mapped events; fp is at most the alerts; precision and recall are null exactly on an empty denominator; the false-alert rate is fp over all alerts, or 0, and lies in [0, 1]; the miss rate is fn over tp + fn; the mean lead time is the mean of the tallied leads and ≥ 0; alerts per day divide by max(lookback/24, 1) |
| Evaluator.EvaluateCountsDetected | backend/src/evaluator.js:72-100 | tp is the number of events some alert matches |
| Evaluator.AlertsPerDay | backend/src/evaluator.js:139-140 | a look-back of a day or less reports the plain count; a longer one gives a rate that times the days is the count; the rate lies in [0, count] |
| Evaluator.MeanAtLeastZero | backend/src/evaluator.js:133-137 | the mean of non-negative lead times is non-negative |
| Evaluator.FalsePositivesAreUnmatchedAlerts | backend/src/evaluator.js:103-123 | with distinct alert ids, fp is the number of alerts that match no event |
| Evaluator.UnusedIsUnmatched | backend/src/evaluator.js:121-123 | with distinct ids, an alert has an unused id exactly when it matches no event |
| GroundTruth.ClampIndex | backend/src/seed-ground-truth-cli.js:4-7 | 0 when n ≤ 0; otherwise an index in [0, n−1], equal to i when i is already valid, 0 below and n − 1 above |
| GroundTruth.Round | backend/src/seed-ground-truth-cli.js:46-47 | `Math.round`: the nearest integer, half-way cases up |
| GroundTruth.Gaps | backend/src/seed-ground-truth-cli.js:15-18 | one gap per consecutive pair of readings, in minutes |
| GroundTruth.MedianMinutes | backend/src/seed-ground-truth-cli.js:13-21 | at least 1; 10 for fewer than two readings; otherwise 10, 1 or an actual gap |
| GroundTruth.EvenSpacingMedian | backend/src/seed-ground-truth-cli.js:13-21 | evenly spaced readings, at least a minute apart, give that spacing as the step |
| GroundTruth.MedianDependsOnGapMultiset | backend/src/seed-ground-truth-cli.js:19-20 | the step depends only on the multiset of gaps, not their order |
| GroundTruth.FindMinMetricIndex | backend/src/seed-ground-truth-cli.js:23-30 | an index in the clamped range whose value is ≤ every value in it, and the earliest such |
| GroundTruth.FindMaxMetricIndex | backend/src/seed-ground-truth-cli.js:32-39 | an index in the clamped range whose value is ≥ every value in it, and the earliest such |
| GroundTruth.Segment | backend/src/seed-ground-truth-cli.js:44 | `readings.slice(start, end + 1)`: the readings from start to end, in order |
| GroundTruth.MinPoints | backend/src/seed-ground-truth-cli.js:46 | the 2-hour window length is at least 2 readings |
| GroundTruth.MaxPoints | backend/src/seed-ground-truth-cli.js:47 | the 4-hour window length exceeds the 2-hour one |
| GroundTruth.ScanLengths | backend/src/seed-ground-truth-cli.js:54-64 | after every length for one start, the kept placement has the least drop among all placements visited so far, and the first such in visiting order |
| GroundTruth.BestBeforeFirst | backend/src/seed-ground-truth-cli.js:49-59 | the first placement visited is the best so far |
| GroundTruth.BestBeforeTake | backend/src/seed-ground-truth-cli.js:59-63 | a strictly lower drop replaces the best |
| GroundTruth.BestBeforeKeep | backend/src/seed-ground-truth-cli.js:59 | a drop that is not lower keeps the earlier best, so ties go to the first found |
| GroundTruth.BestBeforeNextStart | backend/src/seed-ground-truth-cli.js:53-54 | when no longer length fits, the best over this start is the best before the next start |
| GroundTruth.PickIrrigationFailureWindow | backend/src/seed-ground-truth-cli.js:41-67 | with room for a placement, the window lies inside the clamped range, spans between the two lengths, and has the least drop of all placements, the first one winning ties; otherwise it is the shortest window at the range start, cut to the segment |
| GroundTruth.RecoveryIndex | backend/src/seed-ground-truth-cli.js:157-170 | with candidates, the index lies after the irrigation window within the search end and has the largest one-step rise, the first one winning ties; otherwise it is clampIndex(end + 1) |
| GroundTruth.Place | backend/src/seed-ground-truth-cli.js:76-99 | an event keeps type and severity; it starts after the previous end unless it ends at maxMs; in a non-empty window a well-formed interval lands inside it; an overlapping event with room is moved to prevEnd + 5 min with duration max(5 min, original); an event already clear and inside is unchanged |
| GroundTruth.PlaceAll | backend/src/seed-ground-truth-cli.js:75-100 | every event is placed after the one placed before it, keeping order, types and severities |
| GroundTruth.EnforceNonOverlap | backend/src/seed-ground-truth-cli.js:70-103 | the output has one event per input, in the order of a start-time sort that is a permutation of the input, with the sorted events' types and severities |
| GroundTruth.EnforceNonOverlapInWindow | backend/src/seed-ground-truth-cli.js:88-99 | for minTs ≤ maxTs and well-formed inputs every output interval satisfies minTs ≤ start ≤ end ≤ maxTs |
| GroundTruth.EnforceNonOverlapSeparates | backend/src/seed-ground-truth-cli.js:80-96 | each output event starts after the previous one ends, unless it was clamped to end at maxTs |
| GroundTruth.ClampCanReintroduceOverlap | backend/src/seed-ground-truth-cli.js:93-96 | two events ending with the window still overlap after the pass |
| GroundTruth.SafeRange | backend/src/seed-ground-truth-cli.js:148-149 | for at least 60 readings the placement range is a valid, ordered index range |
| GroundTruth.RawEvents | backend/src/seed-ground-truth-cli.js:172-203 | five events of the synthesized types, well-formed when the readings are in time order |
| GroundTruth.EnforceNonOverlapKeepsTypes | backend/src/seed-ground-truth-cli.js:205 | the pass keeps every event's synthesized, mapped type |
| GroundTruth.SoilMoistureEvents | backend/src/seed-ground-truth-cli.js:155-170 | the irrigation window lies inside the safe range and the recovery index follows it, or is the last reading |
| GroundTruth.PlaceEvents | backend/src/seed-ground-truth-cli.js:140-205 | five events of mapped types; for time-ordered readings each lies inside the history's span; each starts after the previous ends, unless it ends at the last reading |
| GroundTruth.PlacedEvents | backend/src/seed-ground-truth-cli.js:205 | the non-overlap pass over the raw events keeps the types, separates the events and, for a non-empty span, keeps them inside it |
| GroundTruth.Synthesize | backend/src/seed-ground-truth-cli.js:131-205 | fewer than 60 readings is an error; otherwise five events of mapped types, each inside the history's span when the readings are in time order |
| Importer.TrimStart | backend/src/importer.js:22 | drops exactly the leading whitespace: the result is a suffix that does not start with whitespace, and everything dropped is whitespace |
| Importer.TrimEnd | backend/src/importer.js:22 | drops exactly the trailing whitespace: the result is a prefix that does not end with whitespace, and everything dropped is whitespace |
| Importer.Trim | backend/src/importer.js:22 | a trimmed field is an infix of the input with only whitespace before and after it, and neither starts nor ends with whitespace |
| Importer.TrimOfTrimmed | backend/src/importer.js:22 | trimming a field without surrounding whitespace leaves it unchanged |
| Importer.TrimIdempotent | backend/src/importer.js:22 | trimming twice is trimming once |
| Importer.MapTrim | backend/src/importer.js:22-28 | each part is trimmed in place |
| Importer.Scan | backend/src/importer.js:10-28 | the scan only appends fields to those already pushed, and always at least one more |
| Importer.ParseCsvLine | backend/src/importer.js:5-30 | at least one field |
| Importer.ScanWithoutQuotes | backend/src/importer.js:10-28 | without quote characters the scan pushes the trimmed pieces between delimiters |
| Importer.ParseWithoutQuotes | backend/src/importer.js:5-30 | on a line with no quote characters, parsing is splitting on the delimiter and trimming each piece |
| Importer.ScanFieldCount | backend/src/importer.js:21-28 | the scan pushes one field per delimiter outside quotes, plus one |
| Importer.FieldCount | backend/src/importer.js:21-28 | the number of fields is one more than the number of delimiters seen outside quotes |
| Importer.QuotedTextVerbatim | backend/src/importer.js:21-26 | inside quotes, text without quote characters, delimiters included, is appended to the field as it is |
| Importer.DelimiterInsideQuotes | backend/src/importer.js:16-21 | a delimiter inside a quoted section stays in the field, and quoting may start and end mid-field |
| Importer.OneQuotedSection | backend/src/importer.js:12-26 | one quoted section between two plain characters yields one field holding all of it, quotes dropped |
| Importer.DoubledQuoteIsLiteral | backend/src/importer.js:13-15 | inside quotes a doubled quote appends one literal quote |
| Importer.LoneQuoteToggles | backend/src/importer.js:16-19 | any other quote character toggles the quoted state and is dropped |
| Importer.Escape | backend/src/importer.js:13-15 | escaping never shortens a field |
| Importer.ScanEscaped | backend/src/importer.js:12-19 | an escaped field followed by its closing quote is read back as the original field, leaving the quoted state |
| Importer.PlainCharAppends | backend/src/importer.js:26 | inside quotes, a character other than a quote is appended to the field |
| Importer.ScanQuotedField | backend/src/importer.js:12-26 | a quoted escaped field is read back as the original field |
| Importer.ScanJoinQuoted | backend/src/importer.js:10-28 | scanning quoted, delimiter-joined trimmed fields pushes exactly those fields |
| Importer.QuotedRoundTrip | backend/src/importer.js:5-30 | parsing the line that quotes each trimmed field, doubles its quotes and joins with the delimiter gives back the fields |
| Importer.CToF | backend/src/importer.js:38-40 | the inverse conversion gives back the Celsius value; 0 maps to 32 and 100 to 212 |
| Importer.CToFInverse | backend/src/importer.js:38-40 | Celsius to Fahrenheit and back are inverse in both directions |
| Importer.CToFLandmarks | backend/src/importer.js:38-40 | 0 ↦ 32, 100 ↦ 212 and −40 ↦ −40 |
| Importer.CToFStrictlyIncreasing | backend/src/importer.js:38-40 | the conversion preserves and reflects strict order |
| Importer.RainOrZero | backend/src/importer.js:137-146 | missing precipitation counts as 0 |
| Importer.DeriveSoilMoisture | backend/src/importer.js:137-143 | the estimate lies in [10, 85] |
| Importer.SoilMoistureBaseline | backend/src/importer.js:137-143 | 20 °C, 50% humidity and no rain give the 38% baseline; heat lowers it and cold does not raise it |
| Importer.SoilMoistureMonotone | backend/src/importer.js:137-143 | the estimate does not rise with temperature and does not fall with humidity or rain |
| Importer.DeriveTankPct | backend/src/importer.js:145-150 | the level lies in [0, 100] |
| Importer.TankDrainsWithoutRain | backend/src/importer.js:145-150 | without rain the tank drops by the 0.35 outflow, floored at 0, and a missing previous level counts as 70 |
| Importer.TankMonotoneInRain | backend/src/importer.js:145-150 | more rain never gives a lower tank level |
| Importer.SplitLines | backend/src/importer.js:73 | splitting on newlines gives at least one piece, none containing a newline |
| Importer.StripCarriageReturns | backend/src/importer.js:73 | the `/\r?\n/` split: a carriage return just before each line break is dropped, the last piece keeps its own |
| Importer.NonBlankLines | backend/src/importer.js:73 | the kept lines are exactly the lines that are not blank after trimming |
| Importer.LastIndexOf | backend/src/importer.js:90-92 | the last position of a header, or −1 exactly when it is absent |
| Importer.HeaderRow | backend/src/importer.js:89-92 | the row has exactly the headers as keys, and a repeated header takes the field of its last column, or "" past the end of the line |
| Importer.NatToStringDistinct | backend/src/importer.js:95 | different indices give different keys |
| Importer.IndexKeys | backend/src/importer.js:94-96 | holds the decimal key of every index below n |
| Importer.IndexRow | backend/src/importer.js:93-97 | without headers, the row has exactly the decimal index keys and each holds the field at that index |
| Importer.ColumnMap | backend/src/importer.js:79-82 | no headers give an empty map; otherwise each header maps to itself |
| Importer.RawField | backend/src/importer.js:99-103 | a non-empty mapped column present in the row gives that column's value; otherwise the field under the key itself, if any |
| Importer.ToNumber | backend/src/importer.js:32-36 | a missing or empty value is null; anything else is what the number parser makes of it |
| Importer.InFahrenheit | backend/src/importer.js:111 | only the temperature changes; in Celsius mode it becomes the value whose Celsius reading was given; otherwise nothing changes |
| Importer.OutcomeOf | backend/src/importer.js:113-127 | a row is skipped exactly when its timestamp, temperature, humidity or soil value is missing (tank is optional); otherwise it is inserted exactly when the store accepts it, carrying the row's values |
| Importer.Tally | backend/src/importer.js:113-127 | inserted, skipped and errors count the outcomes by kind and add up to their number |
| Importer.LineValues | backend/src/importer.js:86-111 | one value record per data line, in line order |
| Importer.ImportRows | backend/src/importer.js:86-128 | one outcome per data line, from that line's values and the store's answer for it |
| Importer.DataValues | backend/src/importer.js:76-111 | one value record per data line after the optional header line |
| Importer.ImportReadingsCsv | backend/src/importer.js:72-131 | an error exactly when no non-blank line exists; otherwise one outcome per data line, inserted + skipped + errors is the number of data lines, and the stats tally the outcomes |
| Decimal.DigitChar | backend/src/importer.js:95 | a digit value renders as a digit character |
| Decimal.DigitValue | backend/src/importer.js:95 | a digit character has a value below 10 |
| Decimal.NatToString | backend/src/importer.js:95 | `String(idx)`: non-empty, all digits, at least two digits from 10 on, and a leading 0 only for 0 |
| Decimal.DecimalRoundTrip | backend/src/importer.js:95 | reading back the rendered digits gives the number |
| Decimal.NatToStringInjective | backend/src/db.js:44 | different numbers render differently, so the placeholders `$k` are distinct |
| PgSql.Placeholder | backend/src/db.js:44 | `$k` starts with a dollar sign and contains no `?` |
| PgSql.ConvertRemovesPlaceholders | backend/src/db.js:42-45 | the converted text has no `?`, and text without `?` is unchanged |
| PgSql.ToPgSql | backend/src/db.js:40-47 | the params are returned unchanged; the output SQL has no `?`; SQL without `?` is returned unchanged |
| PgSql.ConvertNumbers | backend/src/db.js:42-45 | the conversion keeps the text between placeholders and numbers the placeholders consecutively from the given count |
| PgSql.PlaceholdersNumberedLeftToRight | backend/src/db.js:41-45 | the k-th `?` from the left becomes `$k`, and the text between them is preserved in order |
| PgSql.ConvertConcat | backend/src/db.js:41-45 | converting a concatenation converts the second part with numbering continued after the first part's placeholders |
| PgSql.PlaceholderAfter | backend/src/db.js:41-45 | the `?` after a prefix with c placeholders becomes `$(c+1)` and the text after it is kept |
| Strings.Split | backend/src/importer.js:73 | at least one piece, and no piece contains the separator |
| Strings.JoinSplit | backend/src/importer.js:73 | joining the pieces of a split with the separator gives back the text |
| Streaks.TrailingBreachesStep | backend/src/run-experiments-cli.js:185 | one more flag extends the trailing run of breaches on a breach and ends it otherwise |
| Wrappers.Lookup | backend/src/run-experiments-cli.js:113-117 | `obj?.[key] ?? null`: present exactly when the key is in the map, with its value |

## Left out

- Database access and SQL are left out. Reads are sequence parameters and writes are returned records. This covers `run`/`all`/`get`/`migrateAndSeed` in `db.js` and every query. Ordering the store's queries promise, such as `ORDER BY effective_from DESC` and `ORDER BY ts ASC`, is a precondition where a property needs it (`StaticEngine.LatestEffectiveWins`, `GroundTruth.PlaceEvents`).
- Which rows the store rejects is left out: whether an insert of an import row fails is the parameter `accepts(k)`.
- The HTTP routes, the server, the scheduling ticks and concurrency between the simulator tick and the recompute tick are left out. They are I/O and timing.
- The open-meteo fetch of `importOpenMeteoArchive` is left out, because it is network I/O. Its per-hour derivations `cToF`, `deriveSoilMoisture` and `deriveTankPct` are modelled.
- File reading in `importReadingsCsv` is left out: the model takes the file's text.
- Argument checks that only throw on missing CLI or function arguments are left out.
- `Math.random`, `Math.sin`/`Math.cos`, `seasonalBaseline`, `randomNoise` and `injectOccasionalStress` are left out. The generated values and the clock `now` are parameters of `Simulator.TickFarm`.
- `normalizeTimestamp` and `Number()` are not modelled. They are the parameter functions of `Importer.Parsers`.
- ISO timestamp formatting is not modelled. Timestamps are integer milliseconds.
- IEEE-754 arithmetic is not modelled. Values are exact reals, and NaN, Infinity and rounding do not occur, except that the search sentinels are modelled as "nothing found yet".
- Alert message text (`toFixed` formatting) is not modelled. The alert keeps the value and the limits as fields.
- CLI wrappers, console output and the frontend are left out.
- Object keys that coincide with `Object.prototype` members are not modelled. In the source, an event type such as `constructor` or a CSV header such as `__proto__` would read or write an inherited property. The model treats every key as an ordinary map key.
- GroundTruth.EnforceNonOverlap: sort stability is not stated. Events with equal start times may come out in any order that sorts by start time; the source's `Array.prototype.sort` is stable.
- GroundTruth.PlaceEvents: requires `stepMin != 0`. The only caller passes `medianMinutes`, which is at least 1.
- Importer.ImportReadingsCsv: the delimiter is a single character; the source accepts a delimiter string but only ever compares it with one character at a time.
- Importer.IsCelsius: accepts exactly "c" and "C". These are the strings whose `toLowerCase()` is "c", apart from Unicode case mappings onto 'c', which do not exist.
- Backtest.DynamicThresholdFor: the history window uses `windowHours * 3600000` on integers; a fractional `windowHours` is not modelled.
