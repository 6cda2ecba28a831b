/**
  Properties of the SQL compiler: how many `?` characters each filter writes
  against how many values it binds, that parameters follow filter order, that
  unknown keys leave the statement unchanged, that the LIMIT clause encodes
  the requested page, and what the three statements do not depend on.
 */
module QueryProperties {
  import opened Wrappers
  import opened Text
  import opened Entities
  import opened Query

  // ----- placeholder lists -----

  /** `n` single-placeholder parts. */
  function Marks(n: nat): seq<string>
  {
    seq(n, i => "?")
  }

  lemma TrimOneMark(x: string)
    ensures TrimRight(x + "?,", ',') == x + "?"
  {
    assert (x + "?,")[..|x + "?,"| - 1] == x + "?";
  }

  lemma {:induction false} JoinMarks(n: nat)
    requires n > 0
    ensures Join(Marks(n), ",") == Repeat("?,", n - 1) + "?"
  {
    if n > 1 {
      JoinMarks(n - 1);
      assert Marks(n)[..n - 1] == Marks(n - 1);
    }
  }

  /**
    The `IN` list is `?` joined by commas: exactly `n` placeholders and no
    trailing comma.
   */
  lemma {:induction false} PlaceholderListShape(n: nat)
    ensures PlaceholderList(n) == Join(Marks(n), ",")
    ensures CountChar(PlaceholderList(n), '?') == n
    ensures n > 0 ==> PlaceholderList(n)[|PlaceholderList(n)| - 1] == '?'
  {
    if n > 0 {
      TrimOneMark(Repeat("?,", n - 1));
      JoinMarks(n);
      CountCharRepeat("?,", n - 1, '?');
      CountCharConcat(Repeat("?,", n - 1), "?", '?');
      assert CountChar("?,", '?') == 1 by {
        assert "?,"[..1] == "?";
        assert "?"[..0] == "";
      }
      assert CountChar("?", '?') == 1 by {
        assert "?"[..0] == "";
      }
    }
  }

  /** The `NOT IN` list keeps the comma after every placeholder, the last one included. */
  lemma {:induction false} NotInListShape(n: nat)
    ensures CountChar(Repeat("?,", n), '?') == n
    ensures n > 0 ==> Repeat("?,", n)[|Repeat("?,", n)| - 1] == ','
  {
    CountCharRepeat("?,", n, '?');
    assert CountChar("?,", '?') == 1 by {
      assert "?,"[..1] == "?";
      assert "?"[..0] == "";
    }
  }

  /**
    How many `?` characters a filter's condition writes after its
    expression: one per value for the `IN` and `NOT IN` shapes, a single one
    for `like` and the four comparisons. For `like` that character sits
    inside the SQL string literal `'%?%'`, so whether it is bound as a
    placeholder is up to the driver; the count here is of characters.
   */
  function Placeholders(f: ItemsRequestFilter): nat
  {
    if IsInCondition(f.condition) || IsNotInCondition(f.condition) then |f.values| else 1
  }

  lemma InShapeCount(expr: string, n: nat)
    ensures CountChar(expr + " IN (" + PlaceholderList(n) + ")", '?') == CountChar(expr, '?') + n
  {
    assert CountChar(")", '?') == 0 by { assert ")"[..0] == ""; }
    assert CountChar(" IN (", '?') == 0 by { NoMarkIn(" IN ("); }
    PlaceholderListShape(n);
    CountCharConcat(expr, " IN (", '?');
    CountCharConcat(expr + " IN (", PlaceholderList(n), '?');
    CountCharConcat(expr + " IN (" + PlaceholderList(n), ")", '?');
  }

  lemma NotInShapeCount(expr: string, n: nat)
    ensures CountChar(expr + " NOT IN (" + Repeat("?,", n) + ")", '?') == CountChar(expr, '?') + n
  {
    assert CountChar(")", '?') == 0 by { assert ")"[..0] == ""; }
    assert CountChar(" NOT IN (", '?') == 0 by { NoMarkIn(" NOT IN ("); }
    NotInListShape(n);
    CountCharConcat(expr, " NOT IN (", '?');
    CountCharConcat(expr + " NOT IN (", Repeat("?,", n), '?');
    CountCharConcat(expr + " NOT IN (" + Repeat("?,", n), ")", '?');
  }

  lemma SingleMarkCount(expr: string, tail: string, j: nat)
    requires j < |tail| && tail[j] == '?'
    requires forall i :: 0 <= i < |tail| && i != j ==> tail[i] != '?'
    ensures CountChar(expr + tail, '?') == CountChar(expr, '?') + 1
  {
    OneMark(tail, j);
    CountCharConcat(expr, tail, '?');
  }

  /** The `?` characters of one rendered condition: those of the expression plus those of its shape. */
  lemma FilterPlaceholders(expr: string, f: ItemsRequestFilter)
    ensures CountChar(FilterCondition(expr, f), '?') == CountChar(expr, '?') + Placeholders(f)
  {
    var n := |f.values|;
    var c := f.condition;
    if IsInCondition(c) {
      assert FilterCondition(expr, f) == expr + " IN (" + PlaceholderList(n) + ")";
      InShapeCount(expr, n);
    } else if IsNotInCondition(c) {
      NotInShapeCount(expr, n);
    } else {
      SingleMarkShapes(expr, f);
    }
  }

  /** `like` and the four comparisons write one `?` whatever the number of values. */
  lemma SingleMarkShapes(expr: string, f: ItemsRequestFilter)
    requires !IsInCondition(f.condition) && !IsNotInCondition(f.condition)
    ensures CountChar(FilterCondition(expr, f), '?') == CountChar(expr, '?') + 1
  {
    var c := f.condition;
    if c == CondLike {
      SingleMarkCount(expr, " LIKE '%?%'", 8);
    } else if c == CondGreater {
      SingleMarkCount(expr, " > ?", 3);
    } else if c == CondGreaterOrEq {
      SingleMarkCount(expr, " >= ?", 4);
    } else if c == CondLess {
      SingleMarkCount(expr, " < ?", 3);
    } else {
      SingleMarkCount(expr, " <= ?", 4);
    }
  }

  /** A string with no `?` counts none. */
  lemma {:induction false} NoMarkIn(s: string)
    requires forall i :: 0 <= i < |s| ==> s[i] != '?'
    ensures CountChar(s, '?') == 0
    decreases |s|
  {
    if |s| > 0 {
      NoMarkIn(s[..|s| - 1]);
    }
  }

  /** A string whose only `?` sits at position `j` counts one. */
  lemma {:induction false} OneMark(s: string, j: nat)
    requires j < |s| && s[j] == '?'
    requires forall i :: 0 <= i < |s| && i != j ==> s[i] != '?'
    ensures CountChar(s, '?') == 1
    decreases |s|
  {
    if j == |s| - 1 {
      NoMarkIn(s[..|s| - 1]);
    } else {
      OneMark(s[..|s| - 1], j);
    }
  }

  // ----- counting over the WHERE clause -----

  /** Reference: the `?` the qualifying filters write, expressions included. */
  function PlaceholderTotal(cat: Catalog, filters: seq<ItemsRequestFilter>): nat
    decreases |filters|
  {
    if |filters| == 0 then 0
    else
      var f := filters[|filters| - 1];
      PlaceholderTotal(cat, filters[..|filters| - 1])
        + (if Qualifies(cat, f) then CountChar(cat.dimensions[f.key].expression, '?') + Placeholders(f) else 0)
  }

  /** Reference: the number of values the qualifying filters bind. */
  function ValueTotal(cat: Catalog, filters: seq<ItemsRequestFilter>): nat
    decreases |filters|
  {
    if |filters| == 0 then 0
    else
      var f := filters[|filters| - 1];
      ValueTotal(cat, filters[..|filters| - 1]) + (if Qualifies(cat, f) then |f.values| else 0)
  }

  lemma {:induction false} ConditionsPlaceholders(cat: Catalog, filters: seq<ItemsRequestFilter>)
    ensures CountCharSum(Conditions(cat, filters), '?') == PlaceholderTotal(cat, filters)
    decreases |filters|
  {
    if |filters| > 0 {
      var init := filters[..|filters| - 1];
      var f := filters[|filters| - 1];
      ConditionsPlaceholders(cat, init);
      if Qualifies(cat, f) {
        var c := FilterCondition(cat.dimensions[f.key].expression, f);
        FilterPlaceholders(cat.dimensions[f.key].expression, f);
        var parts := Conditions(cat, init) + [c];
        assert parts[..|parts| - 1] == Conditions(cat, init);
      } else {
        assert Conditions(cat, filters) == Conditions(cat, init);
      }
    }
  }

  lemma {:induction false} BoundValuesCount(cat: Catalog, filters: seq<ItemsRequestFilter>)
    ensures |BoundValues(cat, filters)| == ValueTotal(cat, filters)
    decreases |filters|
  {
    if |filters| > 0 {
      BoundValuesCount(cat, filters[..|filters| - 1]);
    }
  }

  /**
    The WHERE clause writes one `?` per value for list conditions and one for
    every other condition, while every value of every qualifying filter is
    bound: placeholders and parameters are counted by different rules.
   */
  lemma WherePlaceholderCount(cat: Catalog, filters: seq<ItemsRequestFilter>)
    ensures CountChar(ApplyWhere(cat, filters).sql, '?') == PlaceholderTotal(cat, filters)
    ensures |ApplyWhere(cat, filters).params| == ValueTotal(cat, filters)
  {
    var conds := Conditions(cat, filters);
    ConditionsPlaceholders(cat, filters);
    BoundValuesCount(cat, filters);
    if conds != [] {
      WhereTextCount(conds);
    }
  }

  lemma WhereTextCount(conds: seq<string>)
    ensures CountChar(" WHERE " + Join(conds, " AND "), '?') == CountCharSum(conds, '?')
  {
    assert CountChar(" AND ", '?') == 0 by { NoMarkIn(" AND "); }
    assert CountChar(" WHERE ", '?') == 0 by { NoMarkIn(" WHERE "); }
    CountCharJoin(conds, " AND ", '?');
    CountCharConcat(" WHERE ", Join(conds, " AND "), '?');
  }

  /** No dimension expression of the catalog contains a `?`. */
  predicate MarkFreeCatalog(cat: Catalog)
  {
    forall k :: k in cat.dimensions ==> CountChar(cat.dimensions[k].expression, '?') == 0
  }

  /** Every qualifying filter writes exactly as many placeholders as it binds values. */
  predicate ShapesMatchValues(cat: Catalog, filters: seq<ItemsRequestFilter>)
  {
    forall i :: 0 <= i < |filters| && Qualifies(cat, filters[i]) ==> Placeholders(filters[i]) == |filters[i].values|
  }

  lemma {:induction false} PlaceholderTotalBound(cat: Catalog, filters: seq<ItemsRequestFilter>)
    requires MarkFreeCatalog(cat)
    ensures PlaceholderTotal(cat, filters) <= ValueTotal(cat, filters)
    ensures PlaceholderTotal(cat, filters) == ValueTotal(cat, filters) <==> ShapesMatchValues(cat, filters)
    decreases |filters|
  {
    if |filters| > 0 {
      var init := filters[..|filters| - 1];
      var f := filters[|filters| - 1];
      PlaceholderTotalBound(cat, init);
      assert forall i :: 0 <= i < |init| ==> init[i] == filters[i];
      if ShapesMatchValues(cat, filters) {
        assert ShapesMatchValues(cat, init);
      }
      if ShapesMatchValues(cat, init) && (Qualifies(cat, f) ==> Placeholders(f) == |f.values|) {
        assert ShapesMatchValues(cat, filters);
      }
    }
  }

  /**
    With no `?` inside the catalog's expressions, the WHERE text has as many
    `?` characters as the statement binds parameters exactly when every
    qualifying `like`, `>`, `>=`, `<` or `<=` filter carries a single value;
    otherwise it has fewer.
   */
  lemma PlaceholdersMatchParams(cat: Catalog, filters: seq<ItemsRequestFilter>)
    requires MarkFreeCatalog(cat)
    ensures CountChar(ApplyWhere(cat, filters).sql, '?') <= |ApplyWhere(cat, filters).params|
    ensures CountChar(ApplyWhere(cat, filters).sql, '?') == |ApplyWhere(cat, filters).params|
            <==> ShapesMatchValues(cat, filters)
  {
    WherePlaceholderCount(cat, filters);
    PlaceholderTotalBound(cat, filters);
  }

  // ----- parameter order and unknown keys -----

  lemma {:induction false} BoundValuesConcat(cat: Catalog, a: seq<ItemsRequestFilter>, b: seq<ItemsRequestFilter>)
    ensures BoundValues(cat, a + b) == BoundValues(cat, a) + BoundValues(cat, b)
    ensures Conditions(cat, a + b) == Conditions(cat, a) + Conditions(cat, b)
    decreases |b|
  {
    if |b| == 0 {
      assert a + b == a;
    } else {
      assert (a + b)[..|a + b| - 1] == a + b[..|b| - 1];
      BoundValuesConcat(cat, a, b[..|b| - 1]);
    }
  }

  /**
    Parameters are the filters' value lists back to back, in filter order,
    whatever their conditions: a single qualifying filter contributes all of its
    values, a non-qualifying one none.
   */
  lemma ParametersInFilterOrder(cat: Catalog, a: seq<ItemsRequestFilter>, f: ItemsRequestFilter, b: seq<ItemsRequestFilter>)
    ensures ApplyWhere(cat, a + [f] + b).params
            == BoundValues(cat, a) + (if Qualifies(cat, f) then f.values else []) + BoundValues(cat, b)
  {
    BoundValuesConcat(cat, a + [f], b);
    BoundValuesConcat(cat, a, [f]);
    assert [f][..0] == [];
  }

  /** A filter that does not qualify (unknown key, empty expression, no values) changes nothing. */
  lemma UnqualifiedFilterDropped(cat: Catalog, a: seq<ItemsRequestFilter>, f: ItemsRequestFilter, b: seq<ItemsRequestFilter>)
    requires !Qualifies(cat, f)
    ensures ApplyWhere(cat, a + [f] + b) == ApplyWhere(cat, a + b)
  {
    BoundValuesConcat(cat, a + [f], b);
    BoundValuesConcat(cat, a, [f]);
    BoundValuesConcat(cat, a, b);
    assert [f][..0] == [];
    assert Conditions(cat, a + [f] + b) == Conditions(cat, a + b);
    assert BoundValues(cat, a + [f] + b) == BoundValues(cat, a + b);
  }

  lemma {:induction false} GroupExpressionsConcat(cat: Catalog, a: seq<string>, b: seq<string>)
    ensures GroupExpressions(cat, a + b) == GroupExpressions(cat, a) + GroupExpressions(cat, b)
    decreases |b|
  {
    if |b| == 0 {
      assert a + b == a;
    } else {
      assert (a + b)[..|a + b| - 1] == a + b[..|b| - 1];
      GroupExpressionsConcat(cat, a, b[..|b| - 1]);
    }
  }

  lemma {:induction false} OrderTermsConcat(cat: Catalog, a: seq<ItemsRequestOrder>, b: seq<ItemsRequestOrder>)
    ensures OrderTerms(cat, a + b) == OrderTerms(cat, a) + OrderTerms(cat, b)
    decreases |b|
  {
    if |b| == 0 {
      assert a + b == a;
    } else {
      assert (a + b)[..|a + b| - 1] == a + b[..|b| - 1];
      OrderTermsConcat(cat, a, b[..|b| - 1]);
    }
  }

  /** A group key the catalog does not know leaves GROUP BY as if it had not been requested. */
  lemma UnknownGroupDropped(cat: Catalog, a: seq<string>, k: string, b: seq<string>)
    requires k !in cat.dimensions
    ensures GroupByClause(cat, a + [k] + b) == GroupByClause(cat, a + b)
  {
    GroupExpressionsConcat(cat, a + [k], b);
    GroupExpressionsConcat(cat, a, [k]);
    GroupExpressionsConcat(cat, a, b);
    assert [k][..0] == [];
  }

  /**
    A sort key the catalog's dimensions do not know, a metric name among them,
    leaves ORDER BY as if it had not been requested.
   */
  lemma UnknownSortKeyDropped(cat: Catalog, a: seq<ItemsRequestOrder>, o: ItemsRequestOrder, b: seq<ItemsRequestOrder>)
    requires o.key !in cat.dimensions
    ensures OrderByClause(cat, a + [o] + b) == OrderByClause(cat, a + b)
  {
    OrderTermsConcat(cat, a + [o], b);
    OrderTermsConcat(cat, a, [o]);
    OrderTermsConcat(cat, a, b);
    assert [o][..0] == [];
  }

  // ----- SELECT lists -----

  /** The catalog expressions of `groups`, one per key, every key being known. */
  function KnownExpressions(cat: Catalog, groups: seq<string>): (exprs: seq<string>)
    requires forall i :: 0 <= i < |groups| ==> groups[i] in cat.dimensions
    ensures |exprs| == |groups|
  {
    seq(|groups|, i requires 0 <= i < |groups| => cat.dimensions[groups[i]].expression)
  }

  /**
    Every requested group key known: Total counts the distinct combinations
    of their expressions, Values lists them before the count and Grouped
    before every catalog metric.
   */
  lemma KnownGroupsSelected(cat: Catalog, groups: seq<string>)
    requires |groups| > 0
    requires forall i :: 0 <= i < |groups| ==> groups[i] in cat.dimensions
    ensures SelectTotal(cat, groups)
            == "SELECT uniq(" + Join(KnownExpressions(cat, groups), ",") + ") AS " + TotalColumnName(cat)
    ensures SelectValue(cat, groups)
            == "SELECT " + Join(KnownExpressions(cat, groups), ",") + ", count(*) AS " + TotalColumnName(cat)
    ensures SelectGrouped(cat, groups)
            == "SELECT " + Join(KnownExpressions(cat, groups), ",") + ", " + Join(MetricColumns(cat.metrics), ",")
  {
    var j := Join(KnownExpressions(cat, groups), ",");
    assert GroupExpressions(cat, groups) == KnownExpressions(cat, groups);
    var name := TotalColumnName(cat);
    var metrics := Join(MetricColumns(cat.metrics), ",");
    assert GroupColumns(cat, groups) == j + ", ";
    assert SelectValue(cat, groups) == "SELECT " + (j + ", ") + ("count(*) AS " + name);
    CountAfterGroups(j, name);
    assert SelectGrouped(cat, groups) == "SELECT " + (j + ", ") + metrics;
    GroupsBefore(j, metrics);
  }

  /**
    Groups requested but none known: Total counts `uniq()` of nothing, and
    the Values and Grouped lists open with a bare `, `.
   */
  lemma NoKnownGroupSelected(cat: Catalog, groups: seq<string>)
    requires |groups| > 0
    requires forall i :: 0 <= i < |groups| ==> groups[i] !in cat.dimensions
    ensures SelectTotal(cat, groups) == "SELECT uniq() AS " + TotalColumnName(cat)
    ensures SelectValue(cat, groups) == "SELECT , count(*) AS " + TotalColumnName(cat)
    ensures SelectGrouped(cat, groups) == "SELECT , " + Join(MetricColumns(cat.metrics), ",")
  {
    var name := TotalColumnName(cat);
    var metrics := Join(MetricColumns(cat.metrics), ",");
    assert GroupExpressions(cat, groups) == [];
    assert GroupColumns(cat, groups) == ", ";
    assert SelectTotal(cat, groups) == "SELECT uniq(" + "" + ") AS " + name;
    UniqOfNothing(name);
    assert SelectValue(cat, groups) == "SELECT " + ", " + ("count(*) AS " + name);
    BareCommaBefore("count(*) AS " + name);
    CountAfterBareComma(name);
    assert SelectGrouped(cat, groups) == "SELECT " + ", " + metrics;
    BareCommaBefore(metrics);
  }

  /** No groups: Total and Values select the same row count; Grouped only the catalog metrics. */
  lemma NoGroupsSelected(cat: Catalog)
    ensures SelectTotal(cat, []) == SelectValue(cat, [])
    ensures SelectValue(cat, []) == "SELECT count(*) AS " + TotalColumnName(cat)
    ensures SelectGrouped(cat, []) == "SELECT " + Join(MetricColumns(cat.metrics), ",")
  {
    assert "SELECT " + "" + "count(*) AS " == "SELECT count(*) AS ";
  }

  /**
    A catalog whose only metric is `count(*)` under the total column's name
    makes Grouped select exactly what Values selects.
   */
  lemma CountOnlyCatalogSelectsAlike(cat: Catalog, groups: seq<string>, description: string)
    requires cat.metrics == [Metric(TotalColumnName(cat), description, "count(*)")]
    ensures SelectGrouped(cat, groups) == SelectValue(cat, groups)
  {
    var cols := MetricColumns(cat.metrics);
    assert cols == ["count(*)" + " AS " + TotalColumnName(cat)];
    assert Join(cols, ",") == "count(*) AS " + TotalColumnName(cat);
  }

  // ----- LIMIT -----

  /** The page a request asks for. */
  datatype Page = Unbounded | First(count: nat) | Window(offset: nat, count: nat)

  /**
    The page the LIMIT rule promises: a window when limit and offset are both
    positive, the first `limit` rows when only the limit is, everything when
    the limit is not positive (the offset is then ignored).
   */
  function PageOf(limit: int, offset: int): Page
  {
    if limit <= 0 then Unbounded
    else if offset <= 0 then First(limit)
    else Window(offset, limit)
  }

  /** Position of the first `c` in `s`. */
  function IndexOfChar(s: string, c: char): (r: Option<nat>)
    ensures r.Some? ==> r.value < |s| && s[r.value] == c && forall j :: 0 <= j < r.value ==> s[j] != c
    ensures r.None? ==> forall j :: 0 <= j < |s| ==> s[j] != c
    decreases |s|
  {
    if |s| == 0 then None
    else if s[0] == c then Some(0)
    else match IndexOfChar(s[1..], c)
      case None => None
      case Some(p) => Some(p + 1)
  }

  /** Reads the page back out of a LIMIT clause in the MySQL/ClickHouse `LIMIT offset, count` form. */
  function ParseLimit(clause: string): Option<Page>
  {
    if clause == "" then Some(Unbounded)
    else if |clause| < 7 || clause[..7] != " LIMIT " then None
    else
      var body := clause[7..];
      match IndexOfChar(body, ',')
      case None =>
        (match ParseNat(body)
         case Some(n) => Some(First(n))
         case None => None)
      case Some(p) =>
        if p + 2 <= |body| && body[p..p + 2] == ", " then
          match (ParseNat(body[..p]), ParseNat(body[p + 2..]))
          case (Some(o), Some(n)) => Some(Window(o, n))
          case _ => None
        else None
  }

  lemma DigitsHaveNoComma(n: nat)
    ensures IndexOfChar(Decimal(n), ',') == None
  {
  }

  lemma {:induction false} IndexOfCharAfter(a: string, b: string, c: char)
    requires IndexOfChar(a, c) == None
    requires |b| > 0 && b[0] == c
    ensures IndexOfChar(a + b, c) == Some(|a|)
    decreases |a|
  {
    if |a| > 0 {
      assert (a + b)[1..] == a[1..] + b;
      IndexOfCharAfter(a[1..], b, c);
    } else {
      assert a + b == b;
    }
  }

  /** The LIMIT clause encodes exactly the page the request asks for. */
  lemma LimitRoundTrip(limit: int, offset: int)
    ensures ParseLimit(LimitClause(limit, offset)) == Some(PageOf(limit, offset))
  {
    if limit > 0 && offset > 0 {
      WindowRoundTrip(limit, offset);
    } else if limit > 0 {
      FirstRoundTrip(limit);
    }
  }

  lemma WindowRoundTrip(limit: int, offset: int)
    requires limit > 0 && offset > 0
    ensures ParseLimit(" LIMIT " + FormatInt(offset) + ", " + FormatInt(limit)) == Some(Window(offset, limit))
  {
    FormatPositive(offset);
    FormatPositive(limit);
    var d := Decimal(offset);
    var body := d + ", " + Decimal(limit);
    var clause := " LIMIT " + body;
    assert " LIMIT " + FormatInt(offset) + ", " + FormatInt(limit) == clause;
    assert clause[..7] == " LIMIT " && clause[7..] == body;
    DigitsHaveNoComma(offset);
    assert body == d + (", " + Decimal(limit));
    IndexOfCharAfter(d, ", " + Decimal(limit), ',');
    assert body[..|d|] == d;
    assert body[|d|..|d| + 2] == ", ";
    assert body[|d| + 2..] == Decimal(limit);
  }

  lemma FirstRoundTrip(limit: int)
    requires limit > 0
    ensures ParseLimit(" LIMIT " + FormatInt(limit)) == Some(First(limit))
  {
    FormatPositive(limit);
    var clause := " LIMIT " + Decimal(limit);
    assert clause[..7] == " LIMIT " && clause[7..] == Decimal(limit);
    DigitsHaveNoComma(limit);
  }

  // ----- what each statement depends on -----

  /**
    The Total statement never carries ORDER BY or LIMIT: it does not change
    with the sort order, the page or the requested metrics.
   */
  lemma TotalIgnoresPaging(cat: Catalog, req: ItemsRequest, sortBy: seq<ItemsRequestOrder>, limit: int, offset: int, metrics: seq<string>)
    ensures TotalStatement(cat, req)
            == TotalStatement(cat, req.(sortBy := sortBy, limit := limit, offset := offset, metrics := metrics))
  {
  }

  /** Grouped selects every catalog metric whatever metrics the request lists; so does Values, which selects none. */
  lemma RequestedMetricsIgnored(cat: Catalog, req: ItemsRequest, metrics: seq<string>)
    ensures GroupedStatement(cat, req) == GroupedStatement(cat, req.(metrics := metrics))
    ensures ValuesStatement(cat, req) == ValuesStatement(cat, req.(metrics := metrics))
  {
  }

  /** ORDER BY and LIMIT close the Values and Grouped statements, in that order. */
  lemma OrderThenLimitLast(cat: Catalog, req: ItemsRequest)
    ensures ValuesStatement(cat, req).sql
            == ValuesStatement(cat, req.(sortBy := [], limit := 0)).sql
               + OrderByClause(cat, req.sortBy) + LimitClause(req.limit, req.offset)
    ensures GroupedStatement(cat, req).sql
            == GroupedStatement(cat, req.(sortBy := [], limit := 0)).sql
               + OrderByClause(cat, req.sortBy) + LimitClause(req.limit, req.offset)
  {
    var bare := req.(sortBy := [], limit := 0);
    assert OrderByClause(cat, bare.sortBy) == "";
    assert LimitClause(bare.limit, bare.offset) == "";
    var w := ApplyWhere(cat, req.filters).sql;
    var g := GroupByClause(cat, req.groups);
    var v := SelectValue(cat, req.groups) + " FROM " + cat.table + " " + w + g;
    var gr := SelectGrouped(cat, req.groups) + " FROM " + cat.table + " " + w + g;
    assert ValuesStatement(cat, bare).sql == v + "" + "";
    assert GroupedStatement(cat, bare).sql == gr + "" + "";
    assert v + "" + "" == v;
    assert gr + "" + "" == gr;
  }

  /** All three statements bind the same parameters, those of the WHERE clause. */
  lemma SharedParameters(cat: Catalog, req: ItemsRequest)
    ensures TotalStatement(cat, req).params == ValuesStatement(cat, req).params
    ensures ValuesStatement(cat, req).params == GroupedStatement(cat, req).params
    ensures GroupedStatement(cat, req).params == ApplyWhere(cat, req.filters).params
  {
  }

  // ----- literal steps -----
  //
  // Each lemma below equates concatenated pieces with the literal they
  // spell, proved on its own because comparing string literals is costly
  // for the verifier.

  /** The group columns in front of the count column. */
  lemma CountAfterGroups(j: string, name: string)
    ensures "SELECT " + (j + ", ") + ("count(*) AS " + name) == "SELECT " + j + ", count(*) AS " + name
  {
    assert ", " + "count(*) AS " == ", count(*) AS ";
  }

  /** The group columns in front of a column list. */
  lemma GroupsBefore(j: string, rest: string)
    ensures "SELECT " + (j + ", ") + rest == "SELECT " + j + ", " + rest
  {
  }

  /** An empty expression list inside `uniq(…)`. */
  lemma UniqOfNothing(name: string)
    ensures "SELECT uniq(" + "" + ") AS " + name == "SELECT uniq() AS " + name
  {
    assert "SELECT uniq(" + "" + ") AS " == "SELECT uniq() AS ";
  }

  /** The bare `, ` prefix in front of a column list. */
  lemma BareCommaBefore(rest: string)
    ensures "SELECT " + ", " + rest == "SELECT , " + rest
  {
    assert "SELECT " + ", " == "SELECT , ";
  }

  /** The bare `, ` prefix in front of the count column. */
  lemma CountAfterBareComma(name: string)
    ensures "SELECT , " + ("count(*) AS " + name) == "SELECT , count(*) AS " + name
  {
    assert "SELECT , " + "count(*) AS " == "SELECT , count(*) AS ";
  }
}
