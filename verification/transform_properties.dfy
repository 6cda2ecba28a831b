/**
  What the merge of transform.go computes, stated against independent
  reference definitions: per key, the metrics (or counts) of every input row
  carrying that key, added up; merging in rounds agrees with merging at once.
 */
module TransformProperties {
  import opened Entities
  import opened KeyedUnion
  import opened Transform

  // ----- metric maps -----

  lemma AddMetricsCommutes(a: map<string, int>, b: map<string, int>)
    ensures AddMetrics(a, b) == AddMetrics(b, a)
  {
  }

  lemma AddMetricsAssociates(a: map<string, int>, b: map<string, int>, c: map<string, int>)
    ensures AddMetrics(AddMetrics(a, b), c) == AddMetrics(a, AddMetrics(b, c))
  {
    var l := AddMetrics(AddMetrics(a, b), c);
    var r := AddMetrics(a, AddMetrics(b, c));
    assert l.Keys == r.Keys;
    forall k | k in l
      ensures l[k] == r[k]
    {
      assert l[k] == MetricOr0(a, k) + MetricOr0(b, k) + MetricOr0(c, k);
    }
  }

  /** Adding no metrics changes nothing. */
  lemma AddMetricsIdentity(a: map<string, int>)
    ensures AddMetrics(a, map[]) == a
    ensures AddMetrics(map[], a) == a
  {
  }

  // ----- references -----

  /** Reference: metric `k` summed over `rows`, a row without it counting 0. */
  function MetricSum(rows: seq<ItemRow<int>>, k: string): int
    decreases |rows|
  {
    if |rows| == 0 then 0 else MetricSum(rows[..|rows| - 1], k) + MetricOr0(rows[|rows| - 1].metrics, k)
  }

  /** Reference: every metric name some row of `rows` carries. */
  function MetricNames(rows: seq<ItemRow<int>>): set<string>
    decreases |rows|
  {
    if |rows| == 0 then {} else MetricNames(rows[..|rows| - 1]) + rows[|rows| - 1].metrics.Keys
  }

  /** Reference: the counts of `values` added up. */
  function CountSum(values: seq<ValueResponse<int>>): int
    decreases |values|
  {
    if |values| == 0 then 0 else CountSum(values[..|values| - 1]) + values[|values| - 1].count
  }

  // ----- one group -----

  /**
    Rows with one dimension map combined left to right: the first row's
    dimensions, every metric name any of them carries, each summed.
   */
  lemma {:induction false} FoldRowsSums(rows: seq<ItemRow<int>>)
    requires |rows| > 0
    ensures Fold(rows, CombineRows).dimensions == rows[0].dimensions
    ensures Fold(rows, CombineRows).metrics.Keys == MetricNames(rows)
    ensures forall k :: MetricOr0(Fold(rows, CombineRows).metrics, k) == MetricSum(rows, k)
    decreases |rows|
  {
    if |rows| == 1 {
      assert rows[..0] == [];
    } else {
      var init := rows[..|rows| - 1];
      var last := rows[|rows| - 1];
      FoldRowsSums(init);
      assert init[0] == rows[0];
      var f := Fold(init, CombineRows);
      assert Fold(rows, CombineRows) == CombineRows(f, last);
      forall k
        ensures MetricOr0(Fold(rows, CombineRows).metrics, k) == MetricSum(rows, k)
      {
        assert MetricOr0(Fold(rows, CombineRows).metrics, k) == MetricOr0(f.metrics, k) + MetricOr0(last.metrics, k);
      }
    }
  }

  /** Values with one key combined left to right: the first value's name and key, the counts summed. */
  lemma {:induction false} FoldValuesSums(values: seq<ValueResponse<int>>)
    requires |values| > 0
    ensures Fold(values, CombineValues).name == values[0].name
    ensures Fold(values, CombineValues).key == values[0].key
    ensures Fold(values, CombineValues).count == CountSum(values)
    decreases |values|
  {
    if |values| == 1 {
      assert values[..0] == [];
    } else {
      var init := values[..|values| - 1];
      FoldValuesSums(init);
      assert init[0] == values[0];
    }
  }

  // ----- the whole merge -----

  /**
    The merged rows: one per distinct dimension map, in first-seen order;
    each carries every metric name of the rows with that map, summed over them.
   */
  lemma MergedRowsContents(rows: seq<ItemRow<int>>)
    ensures |MergedRows(rows)| == |Dedup(Keys(rows, DimensionsOf))|
    ensures forall j :: 0 <= j < |MergedRows(rows)| ==>
              var group := Gather(rows, DimensionsOf, Dedup(Keys(rows, DimensionsOf))[j]);
              && MergedRows(rows)[j].dimensions == Dedup(Keys(rows, DimensionsOf))[j]
              && MergedRows(rows)[j].metrics.Keys == MetricNames(group)
              && forall k :: k in MergedRows(rows)[j].metrics ==> MergedRows(rows)[j].metrics[k] == MetricSum(group, k)
  {
    CombinePreservesKeys();
    CollapseClosedForm(rows, DimensionsOf, CombineRows);
    var ds := Dedup(Keys(rows, DimensionsOf));
    assert Keys(MergedRows(rows), DimensionsOf) == ds;
    forall j | 0 <= j < |MergedRows(rows)|
      ensures var group := Gather(rows, DimensionsOf, ds[j]);
              && MergedRows(rows)[j].dimensions == ds[j]
              && MergedRows(rows)[j].metrics.Keys == MetricNames(group)
              && forall k :: k in MergedRows(rows)[j].metrics ==> MergedRows(rows)[j].metrics[k] == MetricSum(group, k)
    {
      var group := Gather(rows, DimensionsOf, ds[j]);
      assert ds[j] in Keys(rows, DimensionsOf);
      FoldRowsSums(group);
      assert forall k :: k in MergedRows(rows)[j].metrics ==> MergedRows(rows)[j].metrics[k] == MetricOr0(MergedRows(rows)[j].metrics, k);
      assert MergedRows(rows)[j].dimensions == Keys(MergedRows(rows), DimensionsOf)[j];
    }
  }

  /**
    The merged values: one per distinct key tuple, in first-seen order; each
    keeps the name of the first value with that key and sums their counts.
   */
  lemma MergedValuesContents(values: seq<ValueResponse<int>>)
    ensures |MergedValues(values)| == |Dedup(Keys(values, KeyOf))|
    ensures forall j :: 0 <= j < |MergedValues(values)| ==>
              var group := Gather(values, KeyOf, Dedup(Keys(values, KeyOf))[j]);
              && MergedValues(values)[j].key == Dedup(Keys(values, KeyOf))[j]
              && MergedValues(values)[j].name == group[0].name
              && MergedValues(values)[j].count == CountSum(group)
  {
    CombinePreservesKeys();
    CollapseClosedForm(values, KeyOf, CombineValues);
    var ds := Dedup(Keys(values, KeyOf));
    assert Keys(MergedValues(values), KeyOf) == ds;
    forall j | 0 <= j < |MergedValues(values)|
      ensures var group := Gather(values, KeyOf, ds[j]);
              && MergedValues(values)[j].key == ds[j]
              && MergedValues(values)[j].name == group[0].name
              && MergedValues(values)[j].count == CountSum(group)
    {
      var group := Gather(values, KeyOf, ds[j]);
      assert ds[j] in Keys(values, KeyOf);
      FoldValuesSums(group);
      assert MergedValues(values)[j].key == Keys(MergedValues(values), KeyOf)[j];
    }
  }

  /** Distinct dimension maps stay apart and every one of them survives the merge. */
  lemma MergedRowsKeys(rows: seq<ItemRow<int>>)
    ensures Distinct(Keys(MergedRows(rows), DimensionsOf))
    ensures forall d :: d in Keys(MergedRows(rows), DimensionsOf) <==> d in Keys(rows, DimensionsOf)
  {
    CombinePreservesKeys();
    CollapseClosedForm(rows, DimensionsOf, CombineRows);
  }

  /** Distinct key tuples stay apart and every one of them survives the merge. */
  lemma MergedValuesKeys(values: seq<ValueResponse<int>>)
    ensures Distinct(Keys(MergedValues(values), KeyOf))
    ensures forall k :: k in Keys(MergedValues(values), KeyOf) <==> k in Keys(values, KeyOf)
  {
    CombinePreservesKeys();
    CollapseClosedForm(values, KeyOf, CombineValues);
  }

  // ----- merging in rounds -----

  lemma {:induction false} AllRowsConcat(xs: seq<ItemsResponse>, ys: seq<ItemsResponse>)
    ensures AllRows(xs + ys) == AllRows(xs) + AllRows(ys)
    ensures SumTotals(xs + ys) == SumTotals(xs) + SumTotals(ys)
    decreases |ys|
  {
    if |ys| == 0 {
      assert xs + ys == xs;
    } else {
      var init := ys[..|ys| - 1];
      AllRowsConcat(xs, init);
      assert (xs + ys)[..|xs + ys| - 1] == xs + init;
      assert (xs + ys)[|xs + ys| - 1] == ys[|ys| - 1];
    }
  }

  lemma {:induction false} AllValuesConcat(xs: seq<ValuesResponse>, ys: seq<ValuesResponse>)
    ensures AllValues(xs + ys) == AllValues(xs) + AllValues(ys)
    decreases |ys|
  {
    if |ys| == 0 {
      assert xs + ys == xs;
    } else {
      var init := ys[..|ys| - 1];
      AllValuesConcat(xs, init);
      assert (xs + ys)[..|xs + ys| - 1] == xs + init;
      assert (xs + ys)[|xs + ys| - 1] == ys[|ys| - 1];
    }
  }

  /** The response `UnionItemsResponse` builds from a non-empty list. */
  function ItemsUnion(responses: seq<ItemsResponse>): ItemsResponse
  {
    ItemsResponse(MergedRows(AllRows(responses)), SumTotals(responses) % TWO_64)
  }

  /**
    Merging the union of `xs` with further responses `ys` gives the union of
    `xs + ys`: rows and total alike, so shards can be merged in any grouping
    that keeps their order.
   */
  lemma ItemsMergeInStages(xs: seq<ItemsResponse>, ys: seq<ItemsResponse>)
    requires |xs| > 0
    ensures ItemsUnion([ItemsUnion(xs)] + ys) == ItemsUnion(xs + ys)
  {
    var m := ItemsUnion(xs);
    assert [m][..0] == [];
    assert AllRows([m]) == m.rows;
    assert SumTotals([m]) == m.total;
    AllRowsConcat([m], ys);
    AllRowsConcat(xs, ys);
    RowsInStages(xs, ys);
    WrappingSum(SumTotals(xs), SumTotals(ys));
  }

  lemma RowsInStages(xs: seq<ItemsResponse>, ys: seq<ItemsResponse>)
    ensures MergedRows(MergedRows(AllRows(xs)) + AllRows(ys)) == MergedRows(AllRows(xs) + AllRows(ys))
  {
    CombinePreservesKeys();
    MergeInStages(AllRows(xs), AllRows(ys), DimensionsOf, CombineRows);
  }

  /**
    Values merged in rounds agree with values merged at once; `xs` is
    non-empty, so the first round returns a response and not nil.
   */
  lemma ValuesMergeInStages(xs: seq<ValuesResponse>, ys: seq<ValuesResponse>)
    requires |xs| > 0
    ensures MergedValues(AllValues([ValuesResponse(MergedValues(AllValues(xs)))] + ys)) == MergedValues(AllValues(xs + ys))
  {
    var m := ValuesResponse(MergedValues(AllValues(xs)));
    AllValuesConcat([m], ys);
    AllValuesConcat(xs, ys);
    assert AllValues([m]) == m.values by {
      assert [m][..0] == [];
    }
    CombinePreservesKeys();
    MergeInStages(AllValues(xs), AllValues(ys), KeyOf, CombineValues);
  }

  /** A merged response (of at least one response) merged again on its own is unchanged. */
  lemma ItemsUnionIdempotent(xs: seq<ItemsResponse>)
    requires |xs| > 0
    ensures ItemsUnion([ItemsUnion(xs)]) == ItemsUnion(xs)
  {
    ItemsMergeInStages(xs, []);
    assert xs + [] == xs;
  }
}
