/**
  The row decoders of the read repository: how one scanned result row becomes
  a total, a value/count tuple or a grouped row, after the cursor has been
  scanned into destinations. A row is the sequence of its cells, each cell the
  column name the driver reports and the value left in the destination.
 */
module Decode {
  import opened Wrappers
  import opened Entities

  // ----- per-value normalisation -----

  /**
    `unwrapPointerInterface`: a `*interface{}` destination yields the value it
    holds; every other value, a typed pointer included, is returned as it is.
   */
  function Unwrap(v: Value): (r: Value)
    ensures v.BoxPtr? ==> r == v.boxed
    ensures !v.BoxPtr? ==> r == v
  {
    if v.BoxPtr? then v.boxed else v
  }

  /** A float64 that is NaN or an infinity. float32 values never qualify. */
  predicate NonFinite64(v: Value)
  {
    v.FloatVal? && v.fwidth == F64 && !v.f.Finite?
  }

  /**
    `safeNaN`: a NaN or infinite float64 becomes the Go `int` 0; anything else
    passes unchanged. It looks at the value itself only: a float64 behind a
    typed pointer is not inspected.
   */
  function SafeNaN(v: Value): (r: Value)
    ensures !NonFinite64(r)
    ensures NonFinite64(v) ==> r == Int(Word, 0)
    ensures !NonFinite64(v) ==> r == v
  {
    if NonFinite64(v) then Int(Word, 0) else v
  }

  /** What a metric or count column becomes: unwrapped, then sanitised. */
  function Sanitised(v: Value): Value
  {
    SafeNaN(Unwrap(v))
  }

  /** `castUInt64`: every unsigned integer width widens to `uint64`; nothing else converts. */
  function CastUInt64(v: Value): (r: Option<U64>)
    ensures r.Some? <==> v.UInt?
    ensures r.Some? ==> r.value == v.u
  {
    match v
    case UInt(_, u) => Some(u)
    case _ => None
  }

  /** `castInt64`: every signed integer width widens to `int64`; nothing else converts. */
  function CastInt64(v: Value): (r: Option<I64>)
    ensures r.Some? <==> v.Int?
    ensures r.Some? ==> r.value == v.i
  {
    match v
    case Int(_, i) => Some(i)
    case _ => None
  }

  /**
    Go's conversion `uint64(i)` of an `int64`: the same bits read as unsigned,
    so a negative number wraps to `i + 2^64`.
   */
  function AsUInt64(i: I64): (r: U64)
    ensures r % TWO_64 == i % TWO_64
    ensures i >= 0 ==> r == i
  {
    if i < 0 then i + TWO_64 else i
  }

  /**
    The cast chain of `Total` on one sanitised value: an unsigned value as it
    is, else a signed value reinterpreted as unsigned, else nothing.
   */
  function CountOf(v: Value): (r: Option<U64>)
    ensures r.Some? <==> v.UInt? || v.Int?
    ensures v.UInt? ==> r == Some(v.u)
    ensures v.Int? ==> r == Some(AsUInt64(v.i))
  {
    match CastUInt64(v)
    case Some(u) => Some(u)
    case None =>
      match CastInt64(v)
      case Some(i) => Some(AsUInt64(i))
      case None => None
  }

  /** The count a cell contributes to `Total`, if its value casts. */
  function CellCount(c: Cell): Option<U64>
  {
    CountOf(Sanitised(c.value))
  }

  /** Only a `*interface{}` is changed by unwrapping, and only one level of it is removed. */
  lemma UnwrapOnlyBoxes(v: Value)
    ensures Unwrap(v) != v <==> v.BoxPtr?
    ensures v.BoxPtr? ==> Unwrap(v) == v.boxed
  {
    if v.BoxPtr? {
      assert v.boxed < v;
    }
  }

  /**
    Sanitation changes exactly the NaN and infinite float64 values, leaves no
    such value behind, and applying it twice is applying it once.
   */
  lemma SafeNaNContract(v: Value)
    ensures SafeNaN(v) != v <==> NonFinite64(v)
    ensures NonFinite64(v) ==> SafeNaN(v) == Int(Word, 0)
    ensures !NonFinite64(SafeNaN(v))
    ensures SafeNaN(SafeNaN(v)) == SafeNaN(v)
  {
  }

  /** float32 NaN and infinities, and finite float64 values, pass sanitation unchanged. */
  lemma SafeNaNKeepsOtherFloats(f: Float, x: real)
    ensures SafeNaN(FloatVal(F32, f)) == FloatVal(F32, f)
    ensures SafeNaN(FloatVal(F64, Finite(x))) == FloatVal(F64, Finite(x))
  {
  }

  /** A typed destination is never unwrapped, so it never casts to a count. */
  lemma TypedPointerNeverCounts(name: string, target: Value)
    ensures CellCount(Cell(name, Ptr(target))).None?
  {
  }

  /**
    Sanitation reaches only a bare value: a typed destination holding a NaN or
    infinite float64 is neither unwrapped nor sanitised.
   */
  lemma TypedNonFiniteUnsanitised(target: Value)
    requires NonFinite64(target)
    ensures Sanitised(Ptr(target)) == Ptr(target)
    ensures NonFinite64(Sanitised(Ptr(target)).target)
  {
  }

  // ----- Total -----

  /** Reference: the count of the leftmost cell that casts. */
  function FirstCount(cells: seq<Cell>): (r: Option<U64>)
    ensures r.None? <==> forall k :: 0 <= k < |cells| ==> CellCount(cells[k]).None?
    ensures r.Some? ==> exists j :: 0 <= j < |cells| && CellCount(cells[j]) == r
                                    && forall k :: 0 <= k < j ==> CellCount(cells[k]).None?
    decreases |cells|
  {
    if |cells| == 0 then None
    else if CellCount(cells[0]).Some? then CellCount(cells[0])
    else
      var rest := FirstCount(cells[1..]);
      assert forall k :: 1 <= k < |cells| ==> cells[1..][k - 1] == cells[k];
      rest
  }

  /**
    The loop over the destinations of the first row in `Total`: the first
    column that casts decides, and a row where none casts gives 0.
   */
  method TotalOfRow(cells: seq<Cell>) returns (total: U64)
    ensures (forall k :: 0 <= k < |cells| ==> CellCount(cells[k]).None?) ==> total == 0
    ensures forall j :: 0 <= j < |cells| && CellCount(cells[j]).Some?
                        && (forall k :: 0 <= k < j ==> CellCount(cells[k]).None?)
                        ==> total == CellCount(cells[j]).value
  {
    var i := 0;
    while i < |cells|
      invariant 0 <= i <= |cells|
      invariant forall k :: 0 <= k < i ==> CellCount(cells[k]).None?
    {
      var value := Sanitised(cells[i].value);
      var u := CastUInt64(value);
      if u.Some? {
        return u.value;
      }
      var s := CastInt64(value);
      if s.Some? {
        return AsUInt64(s.value);
      }
      i := i + 1;
    }
    return 0;
  }

  /**
    `Total` after the query: no row gives 0, a failed scan of the first row is
    the error, otherwise the first row alone decides. Later rows are never
    scanned, so their failures do not matter.
   */
  method DecodeTotal(rows: seq<Result<seq<Cell>, string>>) returns (r: Result<U64, string>)
    ensures |rows| == 0 ==> r == Success(0)
    ensures |rows| > 0 && rows[0].Failure? ==> r == Failure(rows[0].error)
    ensures |rows| > 0 && rows[0].Success? ==> r == Success(FirstCount(rows[0].value).GetOr(0))
  {
    if |rows| == 0 {
      return Success(0);
    }
    match rows[0]
    case Failure(e) =>
      return Failure(e);
    case Success(cells) =>
      var total := TotalOfRow(cells);
      TotalIsFirstCount(cells, total);
      return Success(total);
  }

  /** The loop and the reference agree. */
  lemma TotalIsFirstCount(cells: seq<Cell>, total: U64)
    requires (forall k :: 0 <= k < |cells| ==> CellCount(cells[k]).None?) ==> total == 0
    requires forall j :: 0 <= j < |cells| && CellCount(cells[j]).Some?
                         && (forall k :: 0 <= k < j ==> CellCount(cells[k]).None?)
                         ==> total == CellCount(cells[j]).value
    ensures total == FirstCount(cells).GetOr(0)
  {
    if FirstCount(cells).Some? {
      var j :| 0 <= j < |cells| && CellCount(cells[j]) == FirstCount(cells)
               && forall k :: 0 <= k < j ==> CellCount(cells[k]).None?;
    }
  }

  /** A negative signed count wraps around to `2^64` plus its value. */
  lemma NegativeCountWraps(w: Width, i: I64)
    requires i < 0
    ensures CellCount(Cell("total", Int(w, i))) == Some(i + TWO_64)
    ensures CellCount(Cell("total", Int(w, i))).value >= TWO_63
  {
  }

  /**
    A NaN float64 in front of an unsigned column decides the total: it is
    sanitised to the Go `int` 0, which casts as a signed count.
   */
  lemma NaNColumnDecidesTotal(rest: seq<Cell>)
    ensures FirstCount([Cell("x", BoxPtr(FloatVal(F64, NaN)))] + rest) == Some(0)
  {
    var cells := [Cell("x", BoxPtr(FloatVal(F64, NaN)))] + rest;
    assert CellCount(cells[0]) == Some(0);
  }

  /**
    A typed NaN float64 in the first column does not decide the total: it is
    never unwrapped, so it never casts, and the columns after it decide.
   */
  lemma TypedNaNColumnSkipped(rest: seq<Cell>)
    ensures FirstCount([Cell("x", Ptr(FloatVal(F64, NaN)))] + rest) == FirstCount(rest)
  {
    var cells := [Cell("x", Ptr(FloatVal(F64, NaN)))] + rest;
    assert CellCount(cells[0]).None?;
    assert cells[1..] == rest;
  }

  // ----- Values -----

  /** A value row before any column is read: `len(Groups)` nils in Name and Key, Count the Go `int` 0. */
  function EmptyValueRow(groups: seq<string>): ValueResponse<Value>
  {
    ValueResponse(seq(|groups|, _ => Null), seq(|groups|, _ => Null), Int(Word, 0))
  }

  /** One iteration of the column loop of `Values`, for column `i`. */
  function ValueColumn(groups: seq<string>, acc: ValueResponse<Value>, i: nat, v: Value): ValueResponse<Value>
    requires |acc.name| == |groups| && |acc.key| == |groups|
  {
    if i < |groups| then acc.(name := acc.name[i := Str(groups[i])], key := acc.key[i := Unwrap(v)])
    else acc.(count := Sanitised(v))
  }

  /** The column loop of `Values` over one scanned row, as written: columns in order. */
  function ValueRow(groups: seq<string>, cells: seq<Cell>): (r: ValueResponse<Value>)
    ensures |r.name| == |groups| && |r.key| == |groups|
    decreases |cells|
  {
    if |cells| == 0 then EmptyValueRow(groups)
    else ValueColumn(groups, ValueRow(groups, cells[..|cells| - 1]), |cells| - 1, cells[|cells| - 1].value)
  }

  /**
    What a value row holds, read off the row: the i-th name and key come from
    column i when the row has one (nil otherwise), the key unwrapped but not
    sanitised; the count is the sanitised last column if some column lies past
    the groups, and 0 otherwise.
   */
  lemma {:induction false} ValueRowContents(groups: seq<string>, cells: seq<Cell>)
    ensures var r := ValueRow(groups, cells);
            && |r.name| == |groups| && |r.key| == |groups|
            && (forall i :: 0 <= i < |groups| ==> r.name[i] == if i < |cells| then Str(groups[i]) else Null)
            && (forall i :: 0 <= i < |groups| ==> r.key[i] == if i < |cells| then Unwrap(cells[i].value) else Null)
            && r.count == if |cells| > |groups| then Sanitised(cells[|cells| - 1].value) else Int(Word, 0)
    decreases |cells|
  {
    if |cells| > 0 {
      var init := cells[..|cells| - 1];
      ValueRowContents(groups, init);
      assert forall i :: 0 <= i < |init| ==> init[i] == cells[i];
      if |cells| - 1 >= |groups| {
        var prev := ValueRow(groups, init);
        assert |init| > |groups| ==> prev.count == Sanitised(init[|init| - 1].value);
      }
    }
  }

  /**
    The row loop of `Values`: the first failed scan aborts with its error and
    no partial result; otherwise one value row per scanned row, in order.
   */
  method DecodeValues(groups: seq<string>, rows: seq<Result<seq<Cell>, string>>)
    returns (r: Result<seq<ValueResponse<Value>>, string>)
    ensures r.Failure? <==> exists i :: 0 <= i < |rows| && rows[i].Failure?
    ensures r.Failure? ==> exists i :: 0 <= i < |rows| && rows[i] == Failure(r.error)
                                       && forall k :: 0 <= k < i ==> rows[k].Success?
    ensures r.Success? ==> |r.value| == |rows|
                           && forall i :: 0 <= i < |rows| ==> r.value[i] == ValueRow(groups, rows[i].value)
  {
    var response: seq<ValueResponse<Value>> := [];
    var i := 0;
    while i < |rows|
      invariant 0 <= i <= |rows|
      invariant forall k :: 0 <= k < i ==> rows[k].Success?
      invariant |response| == i
      invariant forall k :: 0 <= k < i ==> response[k] == ValueRow(groups, rows[k].value)
    {
      match rows[i]
      case Failure(e) =>
        return Failure(e);
      case Success(cells) =>
        response := response + [ValueRow(groups, cells)];
      i := i + 1;
    }
    return Success(response);
  }

  // ----- Grouped -----

  /** One iteration of the column loop of `Grouped`, for column `i`. */
  function ItemColumn(groups: seq<string>, acc: ItemRow<Value>, i: nat, c: Cell): ItemRow<Value>
  {
    if i < |groups| then acc.(dimensions := acc.dimensions[groups[i] := Unwrap(c.value)])
    else acc.(metrics := acc.metrics[c.name := Sanitised(c.value)])
  }

  /** The column loop of `Grouped` over one scanned row, as written: columns in order, from empty maps. */
  function ItemRowOf(groups: seq<string>, cells: seq<Cell>): ItemRow<Value>
    decreases |cells|
  {
    if |cells| == 0 then ItemRow(map[], map[])
    else ItemColumn(groups, ItemRowOf(groups, cells[..|cells| - 1]), |cells| - 1, cells[|cells| - 1])
  }

  /** Column `i` is the last column among the first `n` assigned to group name `k`. */
  predicate LastGroupColumn(groups: seq<string>, n: nat, k: string, i: int)
  {
    0 <= i < n && i < |groups| && groups[i] == k
    && forall j :: i < j < n && j < |groups| ==> groups[j] != k
  }

  /** Column `i` is the last metric column (at or past the groups) named `k`. */
  predicate LastMetricColumn(groups: seq<string>, cells: seq<Cell>, k: string, i: int)
  {
    |groups| <= i < |cells| && cells[i].name == k
    && forall j :: i < j < |cells| ==> cells[j].name != k
  }

  /** Some column among the first `n` is assigned to group name `k`. */
  predicate HasGroupColumn(groups: seq<string>, n: nat, k: string)
  {
    exists i :: 0 <= i < n && i < |groups| && groups[i] == k
  }

  /** Some column at or past the groups is named `k`. */
  predicate HasMetricColumn(groups: seq<string>, cells: seq<Cell>, k: string)
  {
    exists i :: |groups| <= i < |cells| && cells[i].name == k
  }

  /**
    What a grouped row holds, read off the row. A dimension `k` is present iff
    some column before the end of the row and of the groups is assigned to
    group name `k`, and then holds the unwrapped, unsanitised value of the last
    such column. A metric `k` is present iff some column past the groups is
    named `k`, and then holds the sanitised value of the last such column.
   */
  lemma {:induction false} ItemRowContents(groups: seq<string>, cells: seq<Cell>)
    ensures forall k :: k in ItemRowOf(groups, cells).dimensions <==> HasGroupColumn(groups, |cells|, k)
    ensures forall k, i :: LastGroupColumn(groups, |cells|, k, i) ==>
              k in ItemRowOf(groups, cells).dimensions && ItemRowOf(groups, cells).dimensions[k] == Unwrap(cells[i].value)
    ensures forall k :: k in ItemRowOf(groups, cells).metrics <==> HasMetricColumn(groups, cells, k)
    ensures forall k, i :: LastMetricColumn(groups, cells, k, i) ==>
              k in ItemRowOf(groups, cells).metrics && ItemRowOf(groups, cells).metrics[k] == Sanitised(cells[i].value)
    decreases |cells|
  {
    if |cells| > 0 {
      var n := |cells| - 1;
      var init := cells[..n];
      ItemRowContents(groups, init);
      assert forall i :: 0 <= i < n ==> init[i] == cells[i];
      var prev := ItemRowOf(groups, init);
      var r := ItemRowOf(groups, cells);
      assert r == ItemColumn(groups, prev, n, cells[n]);
      forall k
        ensures k in r.dimensions <==> HasGroupColumn(groups, |cells|, k)
      {
        if HasGroupColumn(groups, |cells|, k) {
          var i :| 0 <= i < |cells| && i < |groups| && groups[i] == k;
          if i < n {
            assert HasGroupColumn(groups, n, k);
          }
        }
        if k in r.dimensions && k !in prev.dimensions {
          assert n < |groups| && groups[n] == k;
        } else if k in prev.dimensions {
          var i :| 0 <= i < n && i < |groups| && groups[i] == k;
        }
      }
      forall k
        ensures k in r.metrics <==> HasMetricColumn(groups, cells, k)
      {
        if HasMetricColumn(groups, cells, k) {
          var i :| |groups| <= i < |cells| && cells[i].name == k;
          if i < n {
            assert init[i].name == k;
            assert HasMetricColumn(groups, init, k);
          }
        }
        if k in r.metrics && k !in prev.metrics {
          assert |groups| <= n && cells[n].name == k;
        } else if k in prev.metrics {
          var i :| |groups| <= i < n && init[i].name == k;
          assert cells[i].name == k;
        }
      }
      forall k, i | LastGroupColumn(groups, |cells|, k, i)
        ensures k in r.dimensions && r.dimensions[k] == Unwrap(cells[i].value)
      {
        if i < n {
          assert LastGroupColumn(groups, n, k, i);
        }
      }
      forall k, i | LastMetricColumn(groups, cells, k, i)
        ensures k in r.metrics && r.metrics[k] == Sanitised(cells[i].value)
      {
        if i < n {
          assert LastMetricColumn(groups, init, k, i);
        }
      }
    }
  }

  /** No metric of a decoded grouped row is a NaN or infinite float64. */
  lemma MetricsSanitised(groups: seq<string>, cells: seq<Cell>)
    ensures forall k :: k in ItemRowOf(groups, cells).metrics ==> !NonFinite64(ItemRowOf(groups, cells).metrics[k])
  {
    ItemRowContents(groups, cells);
    var r := ItemRowOf(groups, cells);
    forall k | k in r.metrics
      ensures !NonFinite64(r.metrics[k])
    {
      var i := LastIndexNamed(groups, cells, k);
      assert LastMetricColumn(groups, cells, k, i);
    }
  }

  /**
    A metric whose last column holds a typed destination keeps that pointer as
    it is: a NaN or infinite float64 behind it reaches the metrics unsanitised.
   */
  lemma TypedMetricUnsanitised(groups: seq<string>, cells: seq<Cell>, k: string, i: int)
    requires LastMetricColumn(groups, cells, k, i) && cells[i].value.Ptr?
    ensures k in ItemRowOf(groups, cells).metrics
    ensures ItemRowOf(groups, cells).metrics[k] == cells[i].value
  {
    ItemRowContents(groups, cells);
  }

  /** The last metric column named `k`, given that there is one. */
  function LastIndexNamed(groups: seq<string>, cells: seq<Cell>, k: string): (i: int)
    requires HasMetricColumn(groups, cells, k)
    ensures LastMetricColumn(groups, cells, k, i)
    decreases |cells|
  {
    var n := |cells| - 1;
    if cells[n].name == k && |groups| <= n then n
    else
      var w :| |groups| <= w < |cells| && cells[w].name == k;
      assert cells[..n][w].name == k;
      assert HasMetricColumn(groups, cells[..n], k);
      var i := LastIndexNamed(groups, cells[..n], k);
      assert cells[..n][i] == cells[i];
      i
  }

  /**
    The row loop of `Grouped`: the first failed scan aborts with its error and
    no partial result; otherwise one grouped row per scanned row, in order.
   */
  method DecodeGrouped(groups: seq<string>, rows: seq<Result<seq<Cell>, string>>)
    returns (r: Result<seq<ItemRow<Value>>, string>)
    ensures r.Failure? <==> exists i :: 0 <= i < |rows| && rows[i].Failure?
    ensures r.Failure? ==> exists i :: 0 <= i < |rows| && rows[i] == Failure(r.error)
                                       && forall k :: 0 <= k < i ==> rows[k].Success?
    ensures r.Success? ==> |r.value| == |rows|
                           && forall i :: 0 <= i < |rows| ==> r.value[i] == ItemRowOf(groups, rows[i].value)
  {
    var response: seq<ItemRow<Value>> := [];
    var i := 0;
    while i < |rows|
      invariant 0 <= i <= |rows|
      invariant forall k :: 0 <= k < i ==> rows[k].Success?
      invariant |response| == i
      invariant forall k :: 0 <= k < i ==> response[k] == ItemRowOf(groups, rows[k].value)
    {
      match rows[i]
      case Failure(e) =>
        return Failure(e);
      case Success(cells) =>
        response := response + [ItemRowOf(groups, cells)];
      i := i + 1;
    }
    return Success(response);
  }
}
