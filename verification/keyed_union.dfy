/**
  The keyed fold behind both merges of transform.go: rows are visited in
  order, a row whose key has been seen before is combined into the row that
  first carried that key, and a row with a new key is appended. The module is
  generic in the row type, the key function and the combining function.
 */
module KeyedUnion {

  /** The key of every row, in row order. */
  function Keys<R(!new), K(!new)>(rows: seq<R>, key: R -> K): (ks: seq<K>)
    ensures |ks| == |rows|
    ensures forall i :: 0 <= i < |rows| ==> ks[i] == key(rows[i])
  {
    seq(|rows|, i requires 0 <= i < |rows| => key(rows[i]))
  }

  /** No key occurs twice. */
  predicate Distinct<K(==,!new)>(ks: seq<K>)
  {
    forall i, j :: 0 <= i < j < |ks| ==> ks[i] != ks[j]
  }

  /** Position of the first occurrence of `k` in `ks`, or -1. */
  function IndexOf<K(==,!new)>(ks: seq<K>, k: K): (i: int)
    ensures -1 <= i < |ks|
    ensures i == -1 <==> k !in ks
    ensures 0 <= i ==> ks[i] == k && forall j :: 0 <= j < i ==> ks[j] != k
    decreases |ks|
  {
    if |ks| == 0 then -1
    else if ks[0] == k then 0
    else
      var i := IndexOf(ks[1..], k);
      assert forall j :: 1 <= j < |ks| ==> ks[1..][j - 1] == ks[j];
      if i == -1 then -1 else i + 1
  }

  /** Reference: the keys in first-seen order, each once. */
  function Dedup<K(==,!new)>(ks: seq<K>): (d: seq<K>)
    ensures Distinct(d)
    ensures forall k :: k in d <==> k in ks
    ensures |d| <= |ks|
    decreases |ks|
  {
    if |ks| == 0 then []
    else
      var d := Dedup(ks[..|ks| - 1]);
      var last := ks[|ks| - 1];
      assert forall k :: k in ks <==> k in ks[..|ks| - 1] || k == last;
      if last in d then d else d + [last]
  }

  /** Reference: the rows carrying key `k`, in row order. */
  function Gather<R(!new), K(==,!new)>(rows: seq<R>, key: R -> K, k: K): (g: seq<R>)
    ensures |g| > 0 <==> k in Keys(rows, key)
    ensures forall x :: x in g ==> key(x) == k
    decreases |rows|
  {
    if |rows| == 0 then []
    else
      var init := rows[..|rows| - 1];
      var last := rows[|rows| - 1];
      var g := Gather(init, key, k);
      assert k in Keys(rows, key) <==> k in Keys(init, key) || key(last) == k by {
        assert forall i :: 0 <= i < |init| ==> Keys(rows, key)[i] == Keys(init, key)[i];
        assert Keys(rows, key) == Keys(init, key) + [key(last)];
      }
      if key(last) == k then g + [last] else g
  }

  /** Reference: a non-empty run of rows combined from left to right. */
  function Fold<R(!new)>(rows: seq<R>, combine: (R, R) -> R): R
    requires |rows| > 0
    decreases |rows|
  {
    if |rows| == 1 then rows[0] else combine(Fold(rows[..|rows| - 1], combine), rows[|rows| - 1])
  }

  /** Combining keeps the key of the row combined into. */
  ghost predicate PreservesKey<R(!new), K(!new)>(key: R -> K, combine: (R, R) -> R)
  {
    forall a, b :: key(combine(a, b)) == key(a)
  }

  /**
    One step of the merge loop: combine `r` into the row holding its key, or
    append it when the key is new.
   */
  function Absorb<R(!new), K(==,!new)>(acc: seq<R>, r: R, key: R -> K, combine: (R, R) -> R): (out: seq<R>)
    ensures |out| == |acc| || out == acc + [r]
  {
    var i := IndexOf(Keys(acc, key), key(r));
    if i >= 0 then acc[i := combine(acc[i], r)] else acc + [r]
  }

  /** The merge loop over `rows`, starting from the accumulated rows `acc`. */
  function AbsorbAll<R(!new), K(==,!new)>(acc: seq<R>, rows: seq<R>, key: R -> K, combine: (R, R) -> R): seq<R>
    decreases |rows|
  {
    if |rows| == 0 then acc
    else Absorb(AbsorbAll(acc, rows[..|rows| - 1], key, combine), rows[|rows| - 1], key, combine)
  }

  /** The merge of `rows` from nothing. */
  function Collapse<R(!new), K(==,!new)>(rows: seq<R>, key: R -> K, combine: (R, R) -> R): seq<R>
  {
    AbsorbAll([], rows, key, combine)
  }

  /** Running the loop over `xs` and then over `ys` is running it over `xs + ys`. */
  lemma {:induction false} AbsorbAllConcat<R(!new), K(!new)>(acc: seq<R>, xs: seq<R>, ys: seq<R>, key: R -> K, combine: (R, R) -> R)
    ensures AbsorbAll(acc, xs + ys, key, combine) == AbsorbAll(AbsorbAll(acc, xs, key, combine), ys, key, combine)
    decreases |ys|
  {
    if |ys| == 0 {
      assert xs + ys == xs;
    } else {
      var ys0 := ys[..|ys| - 1];
      AbsorbAllConcat(acc, xs, ys0, key, combine);
      assert (xs + ys)[..|xs + ys| - 1] == xs + ys0;
      assert (xs + ys)[|xs + ys| - 1] == ys[|ys| - 1];
    }
  }

  /** Absorbing a row whose key is new appends it; the keys grow by that key. */
  lemma AbsorbNew<R(!new), K(!new)>(acc: seq<R>, r: R, key: R -> K, combine: (R, R) -> R)
    requires key(r) !in Keys(acc, key)
    ensures Absorb(acc, r, key, combine) == acc + [r]
    ensures Keys(acc + [r], key) == Keys(acc, key) + [key(r)]
  {
  }

  /** Absorbing a row whose key is present combines it in place and keeps every key. */
  lemma AbsorbKnown<R(!new), K(!new)>(acc: seq<R>, r: R, key: R -> K, combine: (R, R) -> R)
    requires PreservesKey(key, combine)
    requires key(r) in Keys(acc, key)
    ensures var i := IndexOf(Keys(acc, key), key(r));
            && 0 <= i < |acc|
            && Absorb(acc, r, key, combine) == acc[i := combine(acc[i], r)]
            && Keys(Absorb(acc, r, key, combine), key) == Keys(acc, key)
  {
    var i := IndexOf(Keys(acc, key), key(r));
    var out := acc[i := combine(acc[i], r)];
    assert key(combine(acc[i], r)) == key(acc[i]);
    assert forall j :: 0 <= j < |out| ==> Keys(out, key)[j] == Keys(acc, key)[j];
  }

  /**
    The merge in closed form: one row per distinct key, in first-seen order,
    and the row for key `k` is every row carrying `k` combined left to right.
   */
  lemma {:induction false} CollapseClosedForm<R(!new), K(!new)>(rows: seq<R>, key: R -> K, combine: (R, R) -> R)
    requires PreservesKey(key, combine)
    ensures Keys(Collapse(rows, key, combine), key) == Dedup(Keys(rows, key))
    ensures forall j :: 0 <= j < |Collapse(rows, key, combine)| ==>
              Collapse(rows, key, combine)[j] == Fold(Gather(rows, key, Dedup(Keys(rows, key))[j]), combine)
    decreases |rows|
  {
    if |rows| > 0 {
      var init := rows[..|rows| - 1];
      var r := rows[|rows| - 1];
      CollapseClosedForm(init, key, combine);
      var acc := Collapse(init, key, combine);
      var out := Collapse(rows, key, combine);
      assert out == Absorb(acc, r, key, combine);
      var ks := Keys(rows, key);
      assert ks[..|ks| - 1] == Keys(init, key);
      var d0 := Dedup(Keys(init, key));
      assert Keys(acc, key) == d0;
      forall k | k != key(r)
        ensures Gather(rows, key, k) == Gather(init, key, k)
      {
      }
      if key(r) in d0 {
        AbsorbKnown(acc, r, key, combine);
        var i := IndexOf(Keys(acc, key), key(r));
        assert Dedup(ks) == d0;
        forall j | 0 <= j < |out|
          ensures out[j] == Fold(Gather(rows, key, d0[j]), combine)
        {
          if j == i {
            var g0 := Gather(init, key, key(r));
            assert Gather(rows, key, key(r)) == g0 + [r];
            assert (g0 + [r])[..|g0|] == g0;
          }
        }
      } else {
        AbsorbNew(acc, r, key, combine);
        assert Dedup(ks) == d0 + [key(r)];
        assert key(r) !in Keys(init, key);
        assert Gather(init, key, key(r)) == [];
        assert Gather(rows, key, key(r)) == [r];
        forall j | 0 <= j < |out|
          ensures out[j] == Fold(Gather(rows, key, Dedup(ks)[j]), combine)
        {
          if j < |acc| {
            assert d0[j] != key(r);
          }
        }
      }
    }
  }

  /** Rows whose keys are already distinct come through the merge unchanged. */
  lemma {:induction false} CollapseDistinct<R(!new), K(!new)>(rows: seq<R>, key: R -> K, combine: (R, R) -> R)
    requires Distinct(Keys(rows, key))
    ensures Collapse(rows, key, combine) == rows
    decreases |rows|
  {
    if |rows| > 0 {
      var init := rows[..|rows| - 1];
      var r := rows[|rows| - 1];
      assert Keys(init, key) == Keys(rows, key)[..|rows| - 1];
      CollapseDistinct(init, key, combine);
      assert key(r) !in Keys(init, key);
      AbsorbNew(init, r, key, combine);
      assert init + [r] == rows;
    }
  }

  /** The merge output has distinct keys, so merging it again changes nothing. */
  lemma CollapseIdempotent<R(!new), K(!new)>(rows: seq<R>, key: R -> K, combine: (R, R) -> R)
    requires PreservesKey(key, combine)
    ensures Distinct(Keys(Collapse(rows, key, combine), key))
    ensures Collapse(Collapse(rows, key, combine), key, combine) == Collapse(rows, key, combine)
  {
    CollapseClosedForm(rows, key, combine);
    CollapseDistinct(Collapse(rows, key, combine), key, combine);
  }

  /**
    Merging the merge of `xs` together with `ys` is merging `xs + ys`:
    merging in two rounds agrees with merging in one.
   */
  lemma MergeInStages<R(!new), K(!new)>(xs: seq<R>, ys: seq<R>, key: R -> K, combine: (R, R) -> R)
    requires PreservesKey(key, combine)
    ensures Collapse(Collapse(xs, key, combine) + ys, key, combine) == Collapse(xs + ys, key, combine)
  {
    var cx := Collapse(xs, key, combine);
    AbsorbAllConcat([], cx, ys, key, combine);
    CollapseIdempotent(xs, key, combine);
    AbsorbAllConcat([], xs, ys, key, combine);
  }

  /** Merging one more row is one more step of the loop. */
  lemma CollapseSnoc<R(!new), K(!new)>(xs: seq<R>, r: R, key: R -> K, combine: (R, R) -> R)
    ensures Collapse(xs + [r], key, combine) == Absorb(Collapse(xs, key, combine), r, key, combine)
  {
    assert (xs + [r])[..|xs|] == xs;
  }

  /** Appending a key moves no earlier first occurrence, and a new key is found at the end. */
  lemma IndexOfSnoc<K(!new)>(ks: seq<K>, x: K, k: K)
    ensures k in ks ==> IndexOf(ks + [x], k) == IndexOf(ks, k)
    ensures k !in ks && x == k ==> IndexOf(ks + [x], k) == |ks|
  {
    var i1 := IndexOf(ks + [x], k);
    var i2 := IndexOf(ks, k);
    if k in ks {
      assert (ks + [x])[i2] == k;
    } else if x == k {
      assert (ks + [x])[|ks|] == k;
    }
  }

  /** Keys in first-seen order: a key listed earlier by `Dedup` first occurs earlier. */
  lemma {:induction false} DedupFirstSeenOrder<K(!new)>(ks: seq<K>)
    ensures forall i, j :: 0 <= i < j < |Dedup(ks)| ==> IndexOf(ks, Dedup(ks)[i]) < IndexOf(ks, Dedup(ks)[j])
    decreases |ks|
  {
    if |ks| > 0 {
      var init := ks[..|ks| - 1];
      var last := ks[|ks| - 1];
      assert ks == init + [last];
      DedupFirstSeenOrder(init);
      var d := Dedup(ks);
      var d0 := Dedup(init);
      forall x | x in d0
        ensures IndexOf(ks, x) == IndexOf(init, x)
      {
        IndexOfSnoc(init, last, x);
      }
      if last !in d0 {
        IndexOfSnoc(init, last, last);
        forall i, j | 0 <= i < j < |d|
          ensures IndexOf(ks, d[i]) < IndexOf(ks, d[j])
        {
          if j == |d0| {
            assert d[i] in d0;
          }
        }
      }
    }
  }
}
