/**
  The SQL compiler of the read repository (read.go): the SELECT, WHERE,
  GROUP BY, ORDER BY and LIMIT builders, and the order in which `Total`,
  `Values` and `Grouped` assemble them into one statement and its
  positional parameters. Keys the catalog does not know are skipped, never
  reported.
 */
module Query {
  import opened Wrappers
  import opened Text
  import opened Entities

  /** SQL text together with the values bound to its placeholders, in order. */
  datatype Statement = Statement(sql: string, params: seq<Value>)

  /** `getDimension`: the catalog entry for a dimension key, if there is one. */
  function GetDimension(cat: Catalog, key: string): (d: Option<Dimension>)
    ensures d.Some? <==> key in cat.dimensions
    ensures d.Some? ==> d.value == cat.dimensions[key]
  {
    if key in cat.dimensions then Some(cat.dimensions[key]) else None
  }

  /** `getTotalColumnName`: the configured name of the total column, `total` when none is set. */
  function TotalColumnName(cat: Catalog): (name: string)
    ensures |name| > 0
    ensures cat.totalColumnName == "" ==> name == "total"
    ensures cat.totalColumnName != "" ==> name == cat.totalColumnName
  {
    if cat.totalColumnName == "" then "total" else cat.totalColumnName
  }

  // ----- resolving keys against the catalog -----

  /**
    The expressions of those keys that name a catalog dimension, in request
    order; unknown keys are skipped. This is the `dimGroup` loop shared by
    `applyGroup`, `applySelectTotal`, `applySelectValue` and `applySelect`.
   */
  function GroupExpressions(cat: Catalog, keys: seq<string>): (exprs: seq<string>)
    ensures |exprs| <= |keys|
    ensures exprs == [] <==> forall i :: 0 <= i < |keys| ==> keys[i] !in cat.dimensions
    ensures (forall i :: 0 <= i < |keys| ==> keys[i] in cat.dimensions) ==>
              |exprs| == |keys| &&
              forall i :: 0 <= i < |keys| ==> exprs[i] == cat.dimensions[keys[i]].expression
    ensures forall e :: e in exprs ==>
              exists k :: k in keys && k in cat.dimensions && cat.dimensions[k].expression == e
    decreases |keys|
  {
    if |keys| == 0 then []
    else
      var init := GroupExpressions(cat, keys[..|keys| - 1]);
      assert forall i :: 0 <= i < |keys| - 1 ==> keys[..|keys| - 1][i] == keys[i];
      match GetDimension(cat, keys[|keys| - 1])
      case None => init
      case Some(d) => init + [d.expression]
  }

  /**
    The `expr direction` terms of `applyOrder`: only sort keys that name a
    catalog dimension (never a metric), the direction copied verbatim.
   */
  function OrderTerms(cat: Catalog, sortBy: seq<ItemsRequestOrder>): (terms: seq<string>)
    ensures |terms| <= |sortBy|
    ensures terms == [] <==> forall i :: 0 <= i < |sortBy| ==> sortBy[i].key !in cat.dimensions
    ensures (forall i :: 0 <= i < |sortBy| ==> sortBy[i].key in cat.dimensions) ==>
              |terms| == |sortBy| &&
              forall i :: 0 <= i < |sortBy| ==>
                terms[i] == cat.dimensions[sortBy[i].key].expression + " " + sortBy[i].direction
    ensures forall t :: t in terms ==>
              exists o :: o in sortBy && o.key in cat.dimensions && t == cat.dimensions[o.key].expression + " " + o.direction
    decreases |sortBy|
  {
    if |sortBy| == 0 then []
    else
      var init := OrderTerms(cat, sortBy[..|sortBy| - 1]);
      var item := sortBy[|sortBy| - 1];
      assert forall i :: 0 <= i < |sortBy| - 1 ==> sortBy[..|sortBy| - 1][i] == sortBy[i];
      match GetDimension(cat, item.key)
      case None => init
      case Some(d) => init + [d.expression + " " + item.direction]
  }

  /** The `expr AS name` columns of `applySelect`: every catalog metric, in catalog order. */
  function MetricColumns(metrics: seq<Metric>): (cols: seq<string>)
    ensures |cols| == |metrics|
    ensures forall i :: 0 <= i < |metrics| ==> cols[i] == metrics[i].expression + " AS " + metrics[i].name
  {
    seq(|metrics|, i requires 0 <= i < |metrics| => metrics[i].expression + " AS " + metrics[i].name)
  }

  // ----- SELECT builders -----

  /**
    `applySelectTotal`: a distinct count over the resolved group expressions
    when groups are requested, a row count otherwise.
   */
  function SelectTotal(cat: Catalog, groups: seq<string>): (s: string)
    ensures |groups| > 0 <==> |s| >= 12 && s[..12] == "SELECT uniq("
    ensures |s| >= |TotalColumnName(cat)| + 4 && s[|s| - |TotalColumnName(cat)| - 4..] == " AS " + TotalColumnName(cat)
  {
    if |groups| > 0 then
      "SELECT uniq(" + Join(GroupExpressions(cat, groups), ",") + ") AS " + TotalColumnName(cat)
    else
      var s := "SELECT count(*) AS " + TotalColumnName(cat);
      assert s[..12][7] == 'c' != "SELECT uniq("[7];
      s
  }

  /**
    The group-expression prefix of `applySelectValue` and `applySelect`:
    present whenever groups are requested, even when none of them resolves,
    and then always closed by `, `.
   */
  function GroupColumns(cat: Catalog, groups: seq<string>): (cols: string)
    ensures cols == "" <==> |groups| == 0
    ensures |groups| > 0 ==> |cols| >= 2 && cols[|cols| - 2..] == ", "
    ensures |groups| > 0 && (forall i :: 0 <= i < |groups| ==> groups[i] !in cat.dimensions) ==> cols == ", "
  {
    if |groups| > 0 then Join(GroupExpressions(cat, groups), ",") + ", " else ""
  }

  /**
    `applySelectValue`: the group expressions, then the count aliased to the
    total column. The count column always closes the list, and it stands alone
    exactly when no groups are requested.
   */
  function SelectValue(cat: Catalog, groups: seq<string>): (s: string)
    ensures |s| >= 7 && s[..7] == "SELECT "
    ensures |s| >= |TotalColumnName(cat)| + 12 && s[|s| - |TotalColumnName(cat)| - 12..] == "count(*) AS " + TotalColumnName(cat)
    ensures |groups| == 0 <==> s == "SELECT " + "count(*) AS " + TotalColumnName(cat)
  {
    var head := "SELECT " + GroupColumns(cat, groups);
    var tail := "count(*) AS " + TotalColumnName(cat);
    assert head[..7] == "SELECT ";
    assert (head + tail)[..7] == head[..7];
    assert (head + tail)[|head|..] == tail;
    head + tail
  }

  /**
    `applySelect`: the group expressions, then every catalog metric; the
    requested metrics play no part. The metric columns always close the list,
    and they stand alone exactly when no groups are requested.
   */
  function SelectGrouped(cat: Catalog, groups: seq<string>): (s: string)
    ensures |s| >= 7 && s[..7] == "SELECT "
    ensures var m := Join(MetricColumns(cat.metrics), ",");
            |s| >= |m| && s[|s| - |m|..] == m
    ensures |groups| == 0 <==> s == "SELECT " + Join(MetricColumns(cat.metrics), ",")
  {
    var head := "SELECT " + GroupColumns(cat, groups);
    var tail := Join(MetricColumns(cat.metrics), ",");
    assert head[..7] == "SELECT ";
    assert (head + tail)[..7] == head[..7];
    assert (head + tail)[|head|..] == tail;
    head + tail
  }

  // ----- GROUP BY, ORDER BY, LIMIT -----

  /** `applyGroup`: omitted when no group key resolves. */
  function GroupByClause(cat: Catalog, groups: seq<string>): (clause: string)
    ensures clause == "" <==> forall i :: 0 <= i < |groups| ==> groups[i] !in cat.dimensions
  {
    var exprs := GroupExpressions(cat, groups);
    if |exprs| > 0 then " GROUP BY  " + Join(exprs, ",") else ""
  }

  /** `applyOrder`: omitted when no sort key resolves. */
  function OrderByClause(cat: Catalog, sortBy: seq<ItemsRequestOrder>): (clause: string)
    ensures clause == "" <==> forall i :: 0 <= i < |sortBy| ==> sortBy[i].key !in cat.dimensions
  {
    var terms := OrderTerms(cat, sortBy);
    if |terms| > 0 then " ORDER BY " + Join(terms, ",") else ""
  }

  /** `applyLimit`: `LIMIT offset, limit` when both are positive, `LIMIT limit` when only the limit is. */
  function LimitClause(limit: int, offset: int): (clause: string)
    ensures clause == "" <==> limit <= 0
  {
    if limit > 0 && offset > 0 then " LIMIT " + FormatInt(offset) + ", " + FormatInt(limit)
    else if limit > 0 then " LIMIT " + FormatInt(limit)
    else ""
  }

  // ----- WHERE -----

  /** `strings.TrimRight(strings.Repeat("?,", n), ",")`: the placeholder list of an `IN`. */
  function PlaceholderList(n: nat): string
  {
    TrimRight(Repeat("?,", n), ',')
  }

  /** Conditions rendered as `IN (…)` with one placeholder per value: `eq`, `=` and every unrecognised tag. */
  predicate IsInCondition(c: Condition)
  {
    c !in {CondNotEq, CondNotEq2, CondLike, CondGreater, CondGreaterOrEq, CondLess, CondLessOrEq}
  }

  /** Conditions rendered as `NOT IN (…)`. */
  predicate IsNotInCondition(c: Condition)
  {
    c == CondNotEq || c == CondNotEq2
  }

  /** The SQL shape of one filter over the dimension expression `expr` (the `switch` of `applyWhere`). */
  function FilterCondition(expr: string, f: ItemsRequestFilter): string
  {
    var n := |f.values|;
    if f.condition == CondEq || f.condition == CondEq2 then expr + " IN (" + PlaceholderList(n) + ")"
    else if f.condition == CondNotEq || f.condition == CondNotEq2 then expr + " NOT IN (" + Repeat("?,", n) + ")"
    else if f.condition == CondLike then expr + " LIKE '%?%'"
    else if f.condition == CondGreater then expr + " > ?"
    else if f.condition == CondGreaterOrEq then expr + " >= ?"
    else if f.condition == CondLess then expr + " < ?"
    else if f.condition == CondLessOrEq then expr + " <= ?"
    else expr + " IN (" + PlaceholderList(n) + ")"
  }

  /** A filter takes part in WHERE: its key resolves, the expression is non-empty, it has values. */
  predicate Qualifies(cat: Catalog, f: ItemsRequestFilter)
  {
    f.key in cat.dimensions && |cat.dimensions[f.key].expression| > 0 && |f.values| > 0
  }

  /** Reference: the conditions of the qualifying filters, in filter order. */
  function Conditions(cat: Catalog, filters: seq<ItemsRequestFilter>): seq<string>
    decreases |filters|
  {
    if |filters| == 0 then []
    else
      var f := filters[|filters| - 1];
      Conditions(cat, filters[..|filters| - 1])
        + (if Qualifies(cat, f) then [FilterCondition(cat.dimensions[f.key].expression, f)] else [])
  }

  /** Reference: the values of the qualifying filters, concatenated in filter order. */
  function BoundValues(cat: Catalog, filters: seq<ItemsRequestFilter>): seq<Value>
    decreases |filters|
  {
    if |filters| == 0 then []
    else
      var f := filters[|filters| - 1];
      BoundValues(cat, filters[..|filters| - 1]) + (if Qualifies(cat, f) then f.values else [])
  }

  /** The accumulators of `applyWhere`: the `where` text built so far and the parameters. */
  datatype WhereState = WhereState(where: string, params: seq<Value>)

  /** One iteration of the `applyWhere` loop, as written: `AND` only after a non-empty `where`. */
  function AppendFilter(cat: Catalog, st: WhereState, f: ItemsRequestFilter): WhereState
  {
    match GetDimension(cat, f.key)
    case None => st
    case Some(field) =>
      var key := field.expression;
      if |key| > 0 && |f.values| > 0 then
        var sep := if |st.where| > 0 then " AND " else "";
        WhereState(st.where + sep + FilterCondition(key, f), st.params + f.values)
      else st
  }

  /** The `applyWhere` loop over all filters, one `AppendFilter` per filter in order. */
  function WhereLoop(cat: Catalog, filters: seq<ItemsRequestFilter>): WhereState
    decreases |filters|
  {
    if |filters| == 0 then WhereState("", [])
    else AppendFilter(cat, WhereLoop(cat, filters[..|filters| - 1]), filters[|filters| - 1])
  }

  /**
    What the `applyWhere` loop builds: the qualifying conditions joined by
    `AND` (the `AND` guard on a non-empty `where` puts one between every two
    of them and none in front), and all of their values as parameters.
   */
  lemma {:induction false} WhereLoopJoinsConditions(cat: Catalog, filters: seq<ItemsRequestFilter>)
    ensures WhereLoop(cat, filters).where == Join(Conditions(cat, filters), " AND ")
    ensures WhereLoop(cat, filters).params == BoundValues(cat, filters)
    decreases |filters|
  {
    if |filters| > 0 {
      var init := filters[..|filters| - 1];
      var f := filters[|filters| - 1];
      WhereLoopJoinsConditions(cat, init);
      ConditionsNonEmpty(cat, init);
      JoinEmptyIff(Conditions(cat, init), " AND ");
      var st0 := WhereLoop(cat, init);
      assert WhereLoop(cat, filters) == AppendFilter(cat, st0, f);
      if Qualifies(cat, f) {
        var c := FilterCondition(cat.dimensions[f.key].expression, f);
        JoinAppend(Conditions(cat, init), " AND ", c);
        assert Conditions(cat, filters) == Conditions(cat, init) + [c];
        assert GetDimension(cat, f.key) == Some(cat.dimensions[f.key]);
      } else {
        assert Conditions(cat, filters) == Conditions(cat, init);
      }
    }
  }

  /** A join of non-empty parts is empty exactly when there are no parts. */
  lemma JoinEmptyIff(parts: seq<string>, sep: string)
    requires forall i :: 0 <= i < |parts| ==> |parts[i]| > 0
    ensures |Join(parts, sep)| == 0 <==> |parts| == 0
    decreases |parts|
  {
    if |parts| > 1 {
      JoinEmptyIff(parts[..|parts| - 1], sep);
    }
  }

  /** Appending a part to a join: after the separator if there were parts before, alone otherwise. */
  lemma JoinAppend(parts: seq<string>, sep: string, p: string)
    ensures Join(parts + [p], sep) == if |parts| == 0 then p else Join(parts, sep) + sep + p
  {
    assert (parts + [p])[..|parts|] == parts;
  }

  /** `applyWhere`: ` WHERE ` and the joined conditions, or nothing when no filter qualifies. */
  function ApplyWhere(cat: Catalog, filters: seq<ItemsRequestFilter>): (w: Statement)
    ensures w.params == BoundValues(cat, filters)
    ensures w.sql == "" <==> Conditions(cat, filters) == []
    ensures Conditions(cat, filters) != [] ==> w.sql == " WHERE " + Join(Conditions(cat, filters), " AND ")
  {
    var st := WhereLoop(cat, filters);
    WhereLoopJoinsConditions(cat, filters);
    ConditionsNonEmpty(cat, filters);
    JoinEmptyIff(Conditions(cat, filters), " AND ");
    Statement(if |st.where| > 0 then " WHERE " + st.where else "", st.params)
  }

  /** Every rendered condition starts with a non-empty expression, so none is empty. */
  lemma ConditionsNonEmpty(cat: Catalog, filters: seq<ItemsRequestFilter>)
    ensures forall i :: 0 <= i < |Conditions(cat, filters)| ==> |Conditions(cat, filters)[i]| > 0
    decreases |filters|
  {
    if |filters| > 0 {
      ConditionsNonEmpty(cat, filters[..|filters| - 1]);
    }
  }

  // ----- statement assembly -----

  /** `Total`: SELECT, FROM and WHERE only. */
  function TotalStatement(cat: Catalog, req: ItemsRequest): (st: Statement)
    ensures st.params == BoundValues(cat, req.filters)
  {
    var w := ApplyWhere(cat, req.filters);
    Statement(SelectTotal(cat, req.groups) + " FROM " + cat.table + w.sql, w.params)
  }

  /** `Values`: SELECT, FROM, WHERE, GROUP BY, ORDER BY, LIMIT, in that order. */
  function ValuesStatement(cat: Catalog, req: ItemsRequest): (st: Statement)
    ensures st.params == BoundValues(cat, req.filters)
  {
    var w := ApplyWhere(cat, req.filters);
    Statement(
      SelectValue(cat, req.groups) + " FROM " + cat.table + " " + w.sql
        + GroupByClause(cat, req.groups) + OrderByClause(cat, req.sortBy)
        + LimitClause(req.limit, req.offset),
      w.params)
  }

  /** `Grouped`: SELECT, FROM, WHERE, GROUP BY, ORDER BY, LIMIT, in that order. */
  function GroupedStatement(cat: Catalog, req: ItemsRequest): (st: Statement)
    ensures st.params == BoundValues(cat, req.filters)
  {
    var w := ApplyWhere(cat, req.filters);
    Statement(
      SelectGrouped(cat, req.groups) + " FROM " + cat.table + " " + w.sql
        + GroupByClause(cat, req.groups) + OrderByClause(cat, req.sortBy)
        + LimitClause(req.limit, req.offset),
      w.params)
  }
}
