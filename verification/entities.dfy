/**
  The request, catalog and response types of the statistics query engine
  (entities.go and conditions.go), and the closed set of scalar values a
  scanned result cell can hold.
 */
module Entities {

  const TWO_63: int := 0x8000_0000_0000_0000
  const TWO_64: int := 0x1_0000_0000_0000_0000

  /** Go's `uint64`. */
  type U64 = x: int | 0 <= x < TWO_64

  /** Go's `int64`. */
  type I64 = x: int | -TWO_63 <= x < TWO_63

  /**
    Bit width of a Go integer type; `Word` is the platform `int`/`uint`,
    taken to be 64 bits wide.
   */
  datatype Width = W8 | W16 | W32 | W64 | Word

  /** Bit width of a Go floating-point type. */
  datatype FloatWidth = F32 | F64

  /** A floating-point number, abstracted to what sanitation needs to tell apart. */
  datatype Float = Finite(x: real) | NaN | PosInf | NegInf

  /**
    A Go value as it sits in an `interface{}` once a row has been scanned.
    `UInt(W16, 7)` is a `uint16`, `Int(Word, 0)` is an untyped Go `0`.
    `Ptr` is a pointer to a concrete type (what `reflect.New` allocates for a
    column whose database type name is known); `BoxPtr` is a `*interface{}`
    (allocated for a column whose type name is empty). `Null` is `nil`.
   */
  datatype Value =
    | UInt(uwidth: Width, u: U64)
    | Int(iwidth: Width, i: I64)
    | FloatVal(fwidth: FloatWidth, f: Float)
    | Str(s: string)
    | Bool(b: bool)
    | Null
    | Ptr(target: Value)
    | BoxPtr(boxed: Value)

  /** A filter condition tag; any string is possible, nine are recognised. */
  type Condition = string

  const CondEq: Condition := "eq"
  const CondEq2: Condition := "="
  const CondNotEq: Condition := "neq"
  const CondNotEq2: Condition := "!="
  const CondLike: Condition := "like"
  const CondGreater: Condition := ">"
  const CondGreaterOrEq: Condition := ">="
  const CondLess: Condition := "<"
  const CondLessOrEq: Condition := "<="

  datatype ItemsRequestFilter = ItemsRequestFilter(key: string, values: seq<Value>, condition: Condition)

  datatype ItemsRequestOrder = ItemsRequestOrder(key: string, direction: string)

  datatype ItemsRequest = ItemsRequest(
    limit: int,
    offset: int,
    sortBy: seq<ItemsRequestOrder>,
    groups: seq<string>,
    metrics: seq<string>,
    filters: seq<ItemsRequestFilter>)

  datatype Metric = Metric(name: string, description: string, expression: string)

  datatype Dimension = Dimension(name: string, description: string, expression: string)

  /**
    What a repository is built with: the table (or table-like expression), the
    dimensions indexed by name, the metrics in declaration order, and the
    optional name of the total column.
   */
  datatype Catalog = Catalog(
    table: string,
    dimensions: map<string, Dimension>,
    metrics: seq<Metric>,
    totalColumnName: string)

  /**
    One grouped row. The decoder fills metrics with scanned values
    (`ItemRow<Value>`); the merge adds them up as numbers (`ItemRow<int>`).
   */
  datatype ItemRow<M> = ItemRow(dimensions: map<string, Value>, metrics: map<string, M>)

  /** One distinct-value tuple: the queried dimension names, their values, and a count. */
  datatype ValueResponse<C> = ValueResponse(name: seq<Value>, key: seq<Value>, count: C)

  datatype ItemsResponse = ItemsResponse(rows: seq<ItemRow<int>>, total: U64)

  datatype ValuesResponse = ValuesResponse(values: seq<ValueResponse<int>>)

  /** One scanned column of a result row: the driver-reported column name and the destination value. */
  datatype Cell = Cell(name: string, value: Value)
}
