/**
  The cases of transform_test.go, worked through the merge model.
 */
module TransformScenarios {
  import opened Entities
  import opened KeyedUnion
  import opened Transform
  import opened TransformProperties

  function KeyRow(m1: int): ItemRow<int>
  {
    ItemRow(map["k1" := Str("key1")], map["m1" := m1])
  }

  /** Two metric maps with the one name `m1` add up under that name. */
  lemma AddSingleMetric(a: int, b: int)
    ensures AddMetrics(map["m1" := a], map["m1" := b]) == map["m1" := a + b]
  {
    var s := AddMetrics(map["m1" := a], map["m1" := b]);
    assert s.Keys == {"m1"};
  }

  /**
    "base union": two responses of total 100 each, whose one row has the
    same dimensions and metric `m1` 100 and 200, merge into that row with
    `m1` 300 and a total of 200.
   */
  lemma BaseUnionOfItems()
    ensures ItemsUnion([ItemsResponse([KeyRow(100)], 100), ItemsResponse([KeyRow(200)], 100)])
         == ItemsResponse([KeyRow(300)], 200)
  {
    var r1 := ItemsResponse([KeyRow(100)], 100);
    var r2 := ItemsResponse([KeyRow(200)], 100);
    assert [r1, r2][..1] == [r1];
    assert [r1][..0] == [];
    assert AllRows([r1]) == [KeyRow(100)];
    assert SumTotals([r1]) == 100;
    assert AllRows([r1, r2]) == [KeyRow(100)] + [KeyRow(200)];
    assert SumTotals([r1, r2]) == 200;
    CollapseSnoc([], KeyRow(100), DimensionsOf, CombineRows);
    AbsorbNew([], KeyRow(100), DimensionsOf, CombineRows);
    assert MergedRows([KeyRow(100)]) == [KeyRow(100)];
    CollapseSnoc([KeyRow(100)], KeyRow(200), DimensionsOf, CombineRows);
    CombinePreservesKeys();
    AbsorbKnown([KeyRow(100)], KeyRow(200), DimensionsOf, CombineRows);
    AddSingleMetric(100, 200);
    assert CombineRows(KeyRow(100), KeyRow(200)) == KeyRow(300);
  }

  /**
    "merge all": `{a: 100, c: 400}` merged with `{a: 100, b: 300}` gives
    `{a: 200, b: 300, c: 400}`; a metric only one side has is kept.
   */
  lemma MergeAllMetrics()
    ensures CombineRows(ItemRow(map[], map["a" := 100, "c" := 400]), ItemRow(map[], map["a" := 100, "b" := 300]))
         == ItemRow(map[], map["a" := 200, "b" := 300, "c" := 400])
  {
    var s := AddMetrics(map["a" := 100, "c" := 400], map["a" := 100, "b" := 300]);
    assert s.Keys == {"a", "b", "c"};
    assert s["a"] == 200 && s["b"] == 300 && s["c"] == 400;
    assert s == map["a" := 200, "b" := 300, "c" := 400];
  }

  /** "base union" of two values: the counts 100 and 200 add to 300, name and key stay. */
  lemma BaseUnionOfValues()
    ensures CombineValues(ValueResponse([Str("n1"), Str("n2")], [Str("k1"), Str("k2")], 100),
                          ValueResponse([Str("n1"), Str("n2")], [Str("k1"), Str("k2")], 200))
         == ValueResponse([Str("n1"), Str("n2")], [Str("k1"), Str("k2")], 300)
  {
  }
}
