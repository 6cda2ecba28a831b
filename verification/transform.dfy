/**
  The merge engine of transform.go: several item responses (or value
  responses) of the same request become one, rows with equal dimension maps
  (values with equal key tuples) folded together and totals added up.
  Metric values and counts are plain numbers here.
 */
module Transform {
  import opened Wrappers
  import opened Entities
  import opened KeyedUnion

  // ----- combining two rows -----

  /** Metric `k` of `m`, or 0 when `m` has no such metric. */
  function MetricOr0<K>(m: map<K, int>, k: K): int
  {
    if k in m then m[k] else 0
  }

  /** The metric maps added key by key, a missing key counting as 0. */
  function AddMetrics(a: map<string, int>, b: map<string, int>): map<string, int>
  {
    map k | k in a.Keys + b.Keys :: MetricOr0(a, k) + MetricOr0(b, k)
  }

  /**
    Part way through adding `bm` into `am`: the keys of `bm` still in `todo`
    are untouched, the others have been added.
   */
  ghost predicate PartlyAdded<K(!new)>(am: map<K, int>, bm: map<K, int>, todo: set<K>, acc: map<K, int>)
  {
    && todo <= bm.Keys
    && acc.Keys == am.Keys + (bm.Keys - todo)
    && forall k :: k in acc ==> acc[k] == MetricOr0(am, k) + (if k in bm && k !in todo then bm[k] else 0)
  }

  lemma AddOneMetric<K(!new)>(am: map<K, int>, bm: map<K, int>, todo: set<K>, acc: map<K, int>, k: K)
    requires PartlyAdded(am, bm, todo, acc) && k in todo
    ensures PartlyAdded(am, bm, todo - {k}, acc[k := MetricOr0(acc, k) + bm[k]])
  {
  }

  lemma AllMetricsAdded<K(!new)>(am: map<K, int>, bm: map<K, int>, acc: map<K, int>)
    requires PartlyAdded(am, bm, {}, acc)
    ensures acc.Keys == am.Keys + bm.Keys
    ensures forall k :: k in bm ==> acc[k] == MetricOr0(am, k) + bm[k]
    ensures forall k :: k in am && k !in bm ==> acc[k] == am[k]
  {
  }

  /**
    The loop of `unionRowResponse` over the metrics of `b`: each is added to
    the metric of `a` with the same name, which starts at 0 when absent.
   */
  method AddInto<K(!new)>(am: map<K, int>, bm: map<K, int>) returns (acc: map<K, int>)
    ensures acc.Keys == am.Keys + bm.Keys
    ensures forall k :: k in bm ==> acc[k] == MetricOr0(am, k) + bm[k]
    ensures forall k :: k in am && k !in bm ==> acc[k] == am[k]
  {
    acc := am;
    var todo := bm.Keys;
    assert PartlyAdded(am, bm, todo, acc);
    while todo != {}
      invariant PartlyAdded(am, bm, todo, acc)
      decreases |todo|
    {
      var k :| k in todo;
      AddOneMetric(am, bm, todo, acc, k);
      acc := acc[k := MetricOr0(acc, k) + bm[k]];
      todo := todo - {k};
    }
    AllMetricsAdded(am, bm, acc);
  }

  /**
    `unionRowResponse`: for every metric of `b`, the metric of `a` (0 when
    absent) is increased by it. Metrics only `a` has, and the dimensions of
    `a`, are left alone. When either row is nil nothing happens.
   */
  method UnionRowResponse(a: Option<ItemRow<int>>, b: Option<ItemRow<int>>) returns (r: Option<ItemRow<int>>)
    ensures a.None? || b.None? ==> r == a
    ensures a.Some? && b.Some? ==> r == Some(CombineRows(a.value, b.value))
  {
    if a.None? || b.None? {
      return a;
    }
    var metrics := AddInto(a.value.metrics, b.value.metrics);
    assert metrics == AddMetrics(a.value.metrics, b.value.metrics);
    return Some(a.value.(metrics := metrics));
  }

  /** The combining step of the items merge: the first row keeps its dimensions and gains the metrics. */
  function CombineRows(a: ItemRow<int>, b: ItemRow<int>): ItemRow<int>
  {
    a.(metrics := AddMetrics(a.metrics, b.metrics))
  }

  /** `unionValueResponse`: the count of `b` is added to `a`; Name and Key stay those of `a`. Nil is a no-op. */
  method UnionValueResponse(a: Option<ValueResponse<int>>, b: Option<ValueResponse<int>>)
    returns (r: Option<ValueResponse<int>>)
    ensures a.None? || b.None? ==> r == a
    ensures a.Some? && b.Some? ==> r.Some? && r.value.name == a.value.name && r.value.key == a.value.key
    ensures a.Some? && b.Some? ==> r.value.count == a.value.count + b.value.count
  {
    if a.None? || b.None? {
      return a;
    }
    return Some(a.value.(count := a.value.count + b.value.count));
  }

  /** The combining step of the values merge. */
  function CombineValues(a: ValueResponse<int>, b: ValueResponse<int>): ValueResponse<int>
  {
    a.(count := a.count + b.count)
  }

  /** `makeKeyUnionMap`: an item row is identified by its whole dimension map. */
  function DimensionsOf(r: ItemRow<int>): map<string, Value>
  {
    r.dimensions
  }

  /** `makeKeyUnion`: a value row is identified by its key tuple alone, not by its names. */
  function KeyOf(v: ValueResponse<int>): seq<Value>
  {
    v.key
  }

  lemma CombinePreservesKeys()
    ensures PreservesKey(DimensionsOf, CombineRows)
    ensures PreservesKey(KeyOf, CombineValues)
  {
  }

  // ----- merging responses -----

  /** The rows of all responses, response by response. */
  function AllRows(responses: seq<ItemsResponse>): seq<ItemRow<int>>
    decreases |responses|
  {
    if |responses| == 0 then [] else AllRows(responses[..|responses| - 1]) + responses[|responses| - 1].rows
  }

  /** The values of all responses, response by response. */
  function AllValues(responses: seq<ValuesResponse>): seq<ValueResponse<int>>
    decreases |responses|
  {
    if |responses| == 0 then [] else AllValues(responses[..|responses| - 1]) + responses[|responses| - 1].values
  }

  /** The arithmetic sum of the totals. */
  function SumTotals(responses: seq<ItemsResponse>): nat
    decreases |responses|
  {
    if |responses| == 0 then 0 else SumTotals(responses[..|responses| - 1]) + responses[|responses| - 1].total
  }

  /** The merged rows of the items merge. */
  function MergedRows(rows: seq<ItemRow<int>>): seq<ItemRow<int>>
  {
    Collapse(rows, DimensionsOf, CombineRows)
  }

  /** The merged values of the values merge. */
  function MergedValues(values: seq<ValueResponse<int>>): seq<ValueResponse<int>>
  {
    Collapse(values, KeyOf, CombineValues)
  }

  /** The index map of the merge loop points at the first row holding each key, and at nothing else. */
  ghost predicate IndexesKeys<R(!new), K(!new)>(index: map<K, nat>, acc: seq<R>, key: R -> K)
  {
    && (forall k :: k in index <==> k in Keys(acc, key))
    && (forall k :: k in index ==> index[k] == IndexOf(Keys(acc, key), k))
  }

  /** Adding a new row under a new key keeps the index map right. */
  lemma IndexNewKey<R(!new), K(!new)>(index: map<K, nat>, acc: seq<R>, r: R, key: R -> K)
    requires IndexesKeys(index, acc, key)
    requires key(r) !in index
    ensures IndexesKeys(index[key(r) := |acc|], acc + [r], key)
  {
    var ks := Keys(acc, key);
    assert Keys(acc + [r], key) == ks + [key(r)];
    forall k | k in index
      ensures IndexOf(ks + [key(r)], k) == IndexOf(ks, k)
    {
      IndexOfSnoc(ks, key(r), k);
    }
    IndexOfSnoc(ks, key(r), key(r));
  }

  /** One step of the merge loop on a key already seen: the row is combined into its slot. */
  lemma MergeKnown<R(!new), K(!new)>(index: map<K, nat>, acc: seq<R>, before: seq<R>, r: R, key: R -> K, combine: (R, R) -> R)
    requires PreservesKey(key, combine)
    requires acc == Collapse(before, key, combine)
    requires IndexesKeys(index, acc, key)
    requires key(r) in index
    ensures index[key(r)] < |acc|
    ensures Collapse(before + [r], key, combine) == acc[index[key(r)] := combine(acc[index[key(r)]], r)]
    ensures IndexesKeys(index, Collapse(before + [r], key, combine), key)
  {
    CollapseSnoc(before, r, key, combine);
    AbsorbKnown(acc, r, key, combine);
  }

  /** One step of the merge loop on a new key: the row is appended and indexed. */
  lemma MergeNew<R(!new), K(!new)>(index: map<K, nat>, acc: seq<R>, before: seq<R>, r: R, key: R -> K, combine: (R, R) -> R)
    requires acc == Collapse(before, key, combine)
    requires IndexesKeys(index, acc, key)
    requires key(r) !in index
    ensures Collapse(before + [r], key, combine) == acc + [r]
    ensures IndexesKeys(index[key(r) := |acc|], acc + [r], key)
  {
    CollapseSnoc(before, r, key, combine);
    AbsorbNew(acc, r, key, combine);
    IndexNewKey(index, acc, r, key);
  }

  /** The rows of the first `i + 1` responses: those of the first `i`, then those of response `i`. */
  lemma AllRowsStep(responses: seq<ItemsResponse>, i: nat)
    requires i < |responses|
    ensures AllRows(responses[..i + 1]) == AllRows(responses[..i]) + responses[i].rows
    ensures SumTotals(responses[..i + 1]) == SumTotals(responses[..i]) + responses[i].total
  {
    assert responses[..i + 1][..i] == responses[..i];
  }

  /** The values of the first `i + 1` responses: those of the first `i`, then those of response `i`. */
  lemma AllValuesStep(responses: seq<ValuesResponse>, i: nat)
    requires i < |responses|
    ensures AllValues(responses[..i + 1]) == AllValues(responses[..i]) + responses[i].values
  {
    assert responses[..i + 1][..i] == responses[..i];
  }

  /** Taking one more element of `ys` after a fixed prefix `xs` appends that element. */
  lemma PrefixSnoc<T>(xs: seq<T>, ys: seq<T>, j: nat)
    requires j < |ys|
    ensures xs + ys[..j + 1] == (xs + ys[..j]) + [ys[j]]
  {
    assert ys[..j + 1] == ys[..j] + [ys[j]];
  }

  /**
    The inner loop of `UnionItemsResponse` over the rows of one response:
    each row is combined, through `unionRowResponse`, into the row already
    holding its dimensions, or appended and indexed.
   */
  method MergeRowsInto(rows: seq<ItemRow<int>>, index: map<map<string, Value>, nat>, ghost done: seq<ItemRow<int>>, batch: seq<ItemRow<int>>)
    returns (rows': seq<ItemRow<int>>, index': map<map<string, Value>, nat>)
    requires rows == MergedRows(done)
    requires IndexesKeys(index, rows, DimensionsOf)
    ensures rows' == MergedRows(done + batch)
    ensures IndexesKeys(index', rows', DimensionsOf)
  {
    CombinePreservesKeys();
    rows', index' := rows, index;
    var j := 0;
    assert done + batch[..0] == done;
    while j < |batch|
      invariant 0 <= j <= |batch|
      invariant rows' == MergedRows(done + batch[..j])
      invariant IndexesKeys(index', rows', DimensionsOf)
    {
      var row := batch[j];
      var key := DimensionsOf(row);
      PrefixSnoc(done, batch, j);
      if key in index' {
        MergeKnown(index', rows', done + batch[..j], row, DimensionsOf, CombineRows);
        var inx := index'[key];
        var merged := UnionRowResponse(Some(rows'[inx]), Some(row));
        rows' := rows'[inx := merged.value];
      } else {
        MergeNew(index', rows', done + batch[..j], row, DimensionsOf, CombineRows);
        index' := index'[key := |rows'|];
        rows' := rows' + [row];
      }
      j := j + 1;
    }
    assert batch[..j] == batch;
  }

  /**
    The inner loop of `UnionValuesResponse` over the values of one response:
    each value is combined, through `unionValueResponse`, into the value
    already holding its key, or appended and indexed.
   */
  method MergeValuesInto(values: seq<ValueResponse<int>>, index: map<seq<Value>, nat>, ghost done: seq<ValueResponse<int>>, batch: seq<ValueResponse<int>>)
    returns (values': seq<ValueResponse<int>>, index': map<seq<Value>, nat>)
    requires values == MergedValues(done)
    requires IndexesKeys(index, values, KeyOf)
    ensures values' == MergedValues(done + batch)
    ensures IndexesKeys(index', values', KeyOf)
  {
    CombinePreservesKeys();
    values', index' := values, index;
    var j := 0;
    assert done + batch[..0] == done;
    while j < |batch|
      invariant 0 <= j <= |batch|
      invariant values' == MergedValues(done + batch[..j])
      invariant IndexesKeys(index', values', KeyOf)
    {
      var v := batch[j];
      var key := KeyOf(v);
      PrefixSnoc(done, batch, j);
      if key in index' {
        MergeKnown(index', values', done + batch[..j], v, KeyOf, CombineValues);
        var inx := index'[key];
        var merged := UnionValueResponse(Some(values'[inx]), Some(v));
        assert merged.value == CombineValues(values'[inx], v);
        values' := values'[inx := merged.value];
      } else {
        MergeNew(index', values', done + batch[..j], v, KeyOf, CombineValues);
        index' := index'[key := |values'|];
        values' := values' + [v];
      }
      j := j + 1;
    }
    assert batch[..j] == batch;
  }

  /** Adding to a wrapped sum and wrapping again is wrapping the plain sum. */
  lemma WrappingSum(a: nat, b: nat)
    ensures (a % TWO_64 + b) % TWO_64 == (a + b) % TWO_64
  {
  }

  /**
    `UnionItemsResponse`: nothing to merge gives nil. Otherwise the rows are
    the keyed merge of every input row, inputs in order and rows in order, and
    the total is the sum of the input totals, wrapping around at 2^64 as a
    Go `uint64` does.
   */
  method UnionItemsResponse(responses: seq<ItemsResponse>) returns (r: Option<ItemsResponse>)
    ensures r.None? <==> |responses| == 0
    ensures r.Some? ==> r.value.rows == MergedRows(AllRows(responses))
    ensures r.Some? ==> r.value.total == SumTotals(responses) % TWO_64
  {
    if |responses| == 0 {
      return None;
    }
    var rows: seq<ItemRow<int>> := [];
    var total: U64 := 0;
    var index: map<map<string, Value>, nat> := map[];
    var i := 0;
    while i < |responses|
      invariant 0 <= i <= |responses|
      invariant rows == MergedRows(AllRows(responses[..i]))
      invariant IndexesKeys(index, rows, DimensionsOf)
      invariant total == SumTotals(responses[..i]) % TWO_64
    {
      var resp := responses[i];
      rows, index := MergeRowsInto(rows, index, AllRows(responses[..i]), resp.rows);
      AllRowsStep(responses, i);
      WrappingSum(SumTotals(responses[..i]), resp.total);
      total := (total + resp.total) % TWO_64;
      i := i + 1;
    }
    assert responses[..i] == responses;
    return Some(ItemsResponse(rows, total));
  }

  /**
    `UnionValuesResponse`: nothing to merge gives nil. Otherwise the values
    are the keyed merge, on the key tuple, of every input value in order.
   */
  method UnionValuesResponse(responses: seq<ValuesResponse>) returns (r: Option<ValuesResponse>)
    ensures r.None? <==> |responses| == 0
    ensures r.Some? ==> r.value.values == MergedValues(AllValues(responses))
  {
    if |responses| == 0 {
      return None;
    }
    var values: seq<ValueResponse<int>> := [];
    var index: map<seq<Value>, nat> := map[];
    var i := 0;
    while i < |responses|
      invariant 0 <= i <= |responses|
      invariant values == MergedValues(AllValues(responses[..i]))
      invariant IndexesKeys(index, values, KeyOf)
    {
      var resp := responses[i];
      values, index := MergeValuesInto(values, index, AllValues(responses[..i]), resp.values);
      AllValuesStep(responses, i);
      i := i + 1;
    }
    assert responses[..i] == responses;
    return Some(ValuesResponse(values));
  }
}
