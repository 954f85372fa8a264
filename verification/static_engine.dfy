/** The static threshold map: versioned, effective-dated bands per metric,
    of which the first row per metric (in the store's order) wins. */
module StaticEngine {
  import opened Wrappers
  import opened Metrics

  /** One stored static threshold row. */
  datatype StaticRow = StaticRow(metric: string, low: Option<real>, high: Option<real>, effectiveFrom: int)

  function RowThreshold(r: StaticRow): Threshold {
    Threshold(r.low, r.high)
  }

  /** The index of the first row with metric `m`. */
  ghost predicate IsFirstWith(rows: seq<StaticRow>, m: string, i: int) {
    0 <= i < |rows| && rows[i].metric == m && forall j :: 0 <= j < i ==> rows[j].metric != m
  }

  /** Reference definition: the position of the first row with metric `m`,
      searched from the front. */
  function FirstIndexOf(rows: seq<StaticRow>, m: string): (r: Option<nat>)
    ensures r.None? <==> forall i :: 0 <= i < |rows| ==> rows[i].metric != m
    ensures r.Some? ==> IsFirstWith(rows, m, r.value)
  {
    if |rows| == 0 then None
    else if rows[0].metric == m then Some(0)
    else
      match FirstIndexOf(rows[1..], m)
      case None => None
      case Some(k) => Some(k + 1)
  }

  /** The loop of `getStaticThresholdMap`, from a map `acc` already built:
      a row sets its metric's entry only when the metric has none yet. */
  function FoldFirst(rows: seq<StaticRow>, acc: map<string, Threshold>): (r: map<string, Threshold>)
    ensures forall m :: m in r <==> m in acc || FirstIndexOf(rows, m).Some?
    ensures forall m :: m in acc ==> r[m] == acc[m]
    ensures forall m :: m in r && m !in acc ==> r[m] == RowThreshold(rows[FirstIndexOf(rows, m).value])
  {
    if |rows| == 0 then acc
    else
      var row := rows[0];
      var next := if row.metric in acc then acc else acc[row.metric := RowThreshold(row)];
      FoldFirst(rows[1..], next)
  }

  /** `getStaticThresholdMap`'s result: exactly the metrics that occur, each
      with the band of its first row. */
  function FirstRowPerMetric(rows: seq<StaticRow>): (map_: map<string, Threshold>)
    ensures forall m :: m in map_ <==> FirstIndexOf(rows, m).Some?
    ensures forall m :: m in map_ ==> map_[m] == RowThreshold(rows[FirstIndexOf(rows, m).value])
  {
    FoldFirst(rows, map[])
  }

  lemma {:induction false} FoldFirstAppend(rows: seq<StaticRow>, more: seq<StaticRow>, acc: map<string, Threshold>)
    ensures FoldFirst(rows + more, acc) == FoldFirst(more, FoldFirst(rows, acc))
    decreases |rows|
  {
    if |rows| > 0 {
      var row := rows[0];
      var next := if row.metric in acc then acc else acc[row.metric := RowThreshold(row)];
      assert (rows + more)[1..] == rows[1..] + more;
      FoldFirstAppend(rows[1..], more, next);
    } else {
      assert rows + more == more;
    }
  }

  /** Rows appended after a metric has an entry never override it. */
  lemma LaterRowsNeverOverride(rows: seq<StaticRow>, more: seq<StaticRow>, m: string)
    requires m in FirstRowPerMetric(rows)
    ensures m in FirstRowPerMetric(rows + more)
    ensures FirstRowPerMetric(rows + more)[m] == FirstRowPerMetric(rows)[m]
  {
    FoldFirstAppend(rows, more, map[]);
  }

  ghost predicate DescendingByEffectiveFrom(rows: seq<StaticRow>) {
    forall i, j :: 0 <= i < j < |rows| ==> rows[i].effectiveFrom >= rows[j].effectiveFrom
  }

  /** With rows ordered newest first (as the store query orders them), each
      entry is the band of a row with the latest `effectiveFrom` for its metric. */
  lemma LatestEffectiveWins(rows: seq<StaticRow>, m: string)
    requires DescendingByEffectiveFrom(rows)
    requires exists k :: 0 <= k < |rows| && rows[k].metric == m
    ensures m in FirstRowPerMetric(rows)
    ensures exists i ::
      && 0 <= i < |rows| && rows[i].metric == m
      && FirstRowPerMetric(rows)[m] == RowThreshold(rows[i])
      && forall j :: 0 <= j < |rows| && rows[j].metric == m ==> rows[j].effectiveFrom <= rows[i].effectiveFrom
  {
    var i := FirstIndexOf(rows, m).value;
    assert FirstRowPerMetric(rows)[m] == RowThreshold(rows[i]);
  }
}
