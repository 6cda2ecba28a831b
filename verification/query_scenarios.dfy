/**
  The statements the repository's own tests expect, and the two malformed
  SELECT lists produced when every requested group key is unknown.

  Long expected texts are written clause by clause, as the builders emit
  them (`select + " FROM " + table + where + …`).
 */
module QueryScenarios {
  import opened Entities
  import opened Text
  import opened Query
  import QueryProperties

  /** Two dimensions named after their columns, one metric, table `test_table`. */
  const TestCatalog: Catalog := Catalog(
    "test_table",
    map["user_id" := Dimension("user_id", "", "user_id"), "geo_id" := Dimension("geo_id", "", "geo_id")],
    [Metric("total", "", "count(*)")],
    "")

  /** Group by user and geo, keep geo 1, 2 or 4 (no condition tag), sort by user, page 100 from 1000. */
  const TestQuery: ItemsRequest := ItemsRequest(
    100, 1000,
    [ItemsRequestOrder("user_id", "desc")],
    ["user_id", "geo_id"],
    [],
    [ItemsRequestFilter("geo_id", [Int(Word, 1), Int(Word, 2), Int(Word, 4)], "")])

  /**
    The statements for the test request: an empty condition tag falls back to
    `IN`, the total is a distinct count over both groups, and Values and
    Grouped send the same text, with the double spaces the builders leave
    after the table name and after GROUP BY.
   */
  lemma RepositoryTestStatements()
    ensures TotalStatement(TestCatalog, TestQuery)
            == Statement("SELECT uniq(" + "user_id,geo_id" + ") AS " + "total" + " FROM " + "test_table" + " WHERE geo_id IN (?,?,?)",
                         [Int(Word, 1), Int(Word, 2), Int(Word, 4)])
    ensures ValuesStatement(TestCatalog, TestQuery)
            == Statement("SELECT " + "user_id,geo_id, " + "count(*) AS " + "total" + " FROM " + "test_table" + " "
                           + " WHERE geo_id IN (?,?,?)" + " GROUP BY  user_id,geo_id" + " ORDER BY user_id desc"
                           + " LIMIT 1000, 100",
                         [Int(Word, 1), Int(Word, 2), Int(Word, 4)])
    ensures GroupedStatement(TestCatalog, TestQuery) == ValuesStatement(TestCatalog, TestQuery)
  {
    TestTotal();
    TestValues();
    TestGrouped();
  }

  lemma TestTotal()
    ensures TotalStatement(TestCatalog, TestQuery)
            == Statement("SELECT uniq(" + "user_id,geo_id" + ") AS " + "total" + " FROM " + "test_table" + " WHERE geo_id IN (?,?,?)",
                         [Int(Word, 1), Int(Word, 2), Int(Word, 4)])
  {
    Assembly(TestCatalog, TestQuery);
    TestWhere();
    TestSelectTotal();
  }

  lemma TestValues()
    ensures ValuesStatement(TestCatalog, TestQuery)
            == Statement("SELECT " + "user_id,geo_id, " + "count(*) AS " + "total" + " FROM " + "test_table" + " "
                           + " WHERE geo_id IN (?,?,?)" + " GROUP BY  user_id,geo_id" + " ORDER BY user_id desc"
                           + " LIMIT 1000, 100",
                         [Int(Word, 1), Int(Word, 2), Int(Word, 4)])
  {
    Assembly(TestCatalog, TestQuery);
    TestWhere();
    TestSelectValue();
    TestGroupBy();
    TestOrder();
    TestLimit();
  }

  lemma TestGrouped()
    ensures GroupedStatement(TestCatalog, TestQuery) == ValuesStatement(TestCatalog, TestQuery)
  {
    Assembly(TestCatalog, TestQuery);
    TestSelectGrouped();
  }

  /**
    Unfolds the definitions of the three statements into their clauses, for
    any catalog and request, so that the scenario proofs below can cite the
    pieces. It states nothing beyond those definitions.
   */
  lemma Assembly(cat: Catalog, req: ItemsRequest)
    ensures TotalStatement(cat, req).sql == SelectTotal(cat, req.groups) + " FROM " + cat.table + ApplyWhere(cat, req.filters).sql
    ensures TotalStatement(cat, req).params == ApplyWhere(cat, req.filters).params
    ensures ValuesStatement(cat, req).sql
            == SelectValue(cat, req.groups) + " FROM " + cat.table + " " + ApplyWhere(cat, req.filters).sql
               + GroupByClause(cat, req.groups) + OrderByClause(cat, req.sortBy) + LimitClause(req.limit, req.offset)
    ensures ValuesStatement(cat, req).params == ApplyWhere(cat, req.filters).params
    ensures GroupedStatement(cat, req).sql
            == SelectGrouped(cat, req.groups) + " FROM " + cat.table + " " + ApplyWhere(cat, req.filters).sql
               + GroupByClause(cat, req.groups) + OrderByClause(cat, req.sortBy) + LimitClause(req.limit, req.offset)
    ensures GroupedStatement(cat, req).params == ApplyWhere(cat, req.filters).params
  {
  }

  // ----- WHERE -----

  /** A single qualifying filter gives a one-condition WHERE binding exactly its values. */
  lemma SingleFilterWhere(cat: Catalog, f: ItemsRequestFilter)
    requires Qualifies(cat, f)
    ensures ApplyWhere(cat, [f]) == Statement(" WHERE " + FilterCondition(cat.dimensions[f.key].expression, f), f.values)
  {
    assert [f][..0] == [];
    var c := FilterCondition(cat.dimensions[f.key].expression, f);
    assert Conditions(cat, [f]) == [c];
    assert Join([c], " AND ") == c;
    assert BoundValues(cat, [f]) == f.values;
    assert ApplyWhere(cat, [f]).sql == " WHERE " + c;
  }

  lemma PlaceholderThree()
    ensures PlaceholderList(3) == "?,?,?"
  {
    var two := Repeat("?,", 2);
    assert Repeat("?,", 1) == "?,";
    assert two == "?,?,";
    QueryProperties.TrimOneMark(two);
    assert two + "?" == "?,?,?";
  }

  /** Three values under an empty condition tag: `IN` with three placeholders. */
  lemma InThree(expr: string, f: ItemsRequestFilter)
    requires |f.values| == 3 && f.condition == ""
    ensures FilterCondition(expr, f) == expr + " IN (" + "?,?,?" + ")"
  {
    PlaceholderThree();
  }

  lemma TestWhere()
    ensures ApplyWhere(TestCatalog, TestQuery.filters) == Statement(" WHERE geo_id IN (?,?,?)", [Int(Word, 1), Int(Word, 2), Int(Word, 4)])
  {
    var f := TestQuery.filters[0];
    assert TestQuery.filters == [f];
    assert Qualifies(TestCatalog, f);
    SingleFilterWhere(TestCatalog, f);
    InThree("geo_id", f);
    GeoWhereText(FilterCondition("geo_id", f));
  }

  // ----- SELECT, GROUP BY, ORDER BY, LIMIT -----

  lemma TwoGroupExpressions(cat: Catalog, a: string, b: string)
    requires a in cat.dimensions && b in cat.dimensions
    ensures GroupExpressions(cat, [a, b]) == [cat.dimensions[a].expression, cat.dimensions[b].expression]
  {
    assert [a, b][..1] == [a];
    assert [a][..0] == [];
  }

  lemma JoinTwo(a: string, b: string, sep: string)
    ensures Join([a, b], sep) == a + sep + b
  {
    assert [a, b][..1] == [a];
  }

  lemma TestGroupList()
    ensures Join(GroupExpressions(TestCatalog, TestQuery.groups), ",") == "user_id,geo_id"
    ensures GroupColumns(TestCatalog, TestQuery.groups) == "user_id,geo_id, "
    ensures TotalColumnName(TestCatalog) == "total"
  {
    TwoGroupExpressions(TestCatalog, "user_id", "geo_id");
    assert TestQuery.groups == ["user_id", "geo_id"];
    JoinTwo("user_id", "geo_id", ",");
  }

  lemma TestSelectTotal()
    ensures SelectTotal(TestCatalog, TestQuery.groups) == "SELECT uniq(" + "user_id,geo_id" + ") AS " + "total"
  {
    TestGroupList();
  }

  lemma TestSelectValue()
    ensures SelectValue(TestCatalog, TestQuery.groups) == "SELECT " + "user_id,geo_id, " + "count(*) AS " + "total"
  {
    TestGroupList();
  }

  lemma TestMetricList(metrics: seq<Metric>)
    requires metrics == TestCatalog.metrics
    ensures Join(MetricColumns(metrics), ",") == "count(*) AS total"
  {
    var cols := MetricColumns(metrics);
    assert cols[0] == "count(*) AS total";
    assert cols == ["count(*) AS total"];
  }

  /** Grouped selects the catalog's one metric where Values selects the count: here the same text. */
  lemma TestSelectGrouped()
    ensures SelectGrouped(TestCatalog, TestQuery.groups) == SelectValue(TestCatalog, TestQuery.groups)
  {
    TestGroupList();
    TestMetricList(TestCatalog.metrics);
    TestSelectValue();
    Associate("SELECT " + "user_id,geo_id, ", "count(*) AS ", "total");
    assert "count(*) AS " + "total" == "count(*) AS total";
  }

  lemma TestGroupBy()
    ensures GroupByClause(TestCatalog, TestQuery.groups) == " GROUP BY  user_id,geo_id"
  {
    TestGroupList();
    GroupByText(Join(GroupExpressions(TestCatalog, TestQuery.groups), ","));
  }

  lemma OneOrderTerm(cat: Catalog, o: ItemsRequestOrder)
    requires o.key in cat.dimensions
    ensures OrderTerms(cat, [o]) == [cat.dimensions[o.key].expression + " " + o.direction]
  {
    assert [o][..0] == [];
  }

  lemma TestOrder()
    ensures OrderByClause(TestCatalog, TestQuery.sortBy) == " ORDER BY user_id desc"
  {
    var o := TestQuery.sortBy[0];
    assert TestQuery.sortBy == [o];
    OneOrderTerm(TestCatalog, o);
    OrderText(OrderTerms(TestCatalog, [o])[0]);
  }

  lemma TestLimit()
    ensures LimitClause(100, 1000) == " LIMIT 1000, 100"
  {
    assert Decimal(1000) == "1000";
    assert Decimal(100) == "100";
    LimitText(FormatInt(1000), FormatInt(100));
  }

  // ----- the events catalog -----

  /** The events catalog: dimension `ip`, metrics `n` (a row count) and `s` (a sum), table `ev`. */
  const EventsCatalog: Catalog := Catalog(
    "ev",
    map["ip" := Dimension("ip", "", "ip")],
    [Metric("n", "", "count(*)"), Metric("s", "", "sum(p)")],
    "")

  /** Grouped by `ip`, asking for `s` only, sorted by the metric `s`. */
  const EventsQuery: ItemsRequest := ItemsRequest(0, 0, [ItemsRequestOrder("s", "desc")], ["ip"], ["s"], [])

  /** Every catalog metric is selected whatever was asked for, and the metric sort key is dropped. */
  lemma EventsGroupedStatement()
    ensures GroupedStatement(EventsCatalog, EventsQuery)
            == Statement("SELECT " + "ip, " + "count(*) AS n,sum(p) AS s" + " FROM " + "ev" + " " + " GROUP BY  ip", [])
  {
    Assembly(EventsCatalog, EventsQuery);
    EventsSelect();
    EventsGroupBy();
    EventsOrder();
    NoFilters(EventsCatalog);
    EmptyTail(GroupedStatement(EventsCatalog, EventsQuery).sql);
  }

  /** Without groups the total counts rows. */
  lemma EventsTotalStatement()
    ensures TotalStatement(EventsCatalog, ItemsRequest(0, 0, [], [], [], []))
            == Statement("SELECT count(*) AS total" + " FROM " + "ev", [])
  {
    Assembly(EventsCatalog, ItemsRequest(0, 0, [], [], [], []));
    NoFilters(EventsCatalog);
  }

  lemma NoFilters(cat: Catalog)
    ensures ApplyWhere(cat, []) == Statement("", [])
  {
  }

  lemma OneGroupExpression(cat: Catalog, a: string)
    requires a in cat.dimensions
    ensures GroupExpressions(cat, [a]) == [cat.dimensions[a].expression]
  {
    assert [a][..0] == [];
  }

  lemma EventsGroupList()
    ensures Join(GroupExpressions(EventsCatalog, EventsQuery.groups), ",") == "ip"
    ensures GroupColumns(EventsCatalog, EventsQuery.groups) == "ip, "
  {
    OneGroupExpression(EventsCatalog, "ip");
  }

  lemma EventsMetricList()
    ensures Join(MetricColumns(EventsCatalog.metrics), ",") == "count(*) AS n,sum(p) AS s"
  {
    var cols := MetricColumns(EventsCatalog.metrics);
    assert cols[0] == "count(*) AS n";
    assert cols[1] == "sum(p) AS s";
    assert cols == [cols[0], cols[1]];
    JoinTwo(cols[0], cols[1], ",");
  }

  lemma EventsSelect()
    ensures SelectGrouped(EventsCatalog, EventsQuery.groups) == "SELECT " + "ip, " + "count(*) AS n,sum(p) AS s"
  {
    EventsGroupList();
    EventsMetricList();
  }

  lemma EventsGroupBy()
    ensures GroupByClause(EventsCatalog, EventsQuery.groups) == " GROUP BY  ip"
  {
    EventsGroupList();
  }

  lemma EventsOrder()
    ensures OrderByClause(EventsCatalog, EventsQuery.sortBy) == ""
  {
    var o := EventsQuery.sortBy[0];
    assert o.key !in EventsCatalog.dimensions;
    assert [o][..0] == [];
    assert OrderTerms(EventsCatalog, [o]) == [];
  }

  // ----- unknown group keys -----

  const UnknownGroupQuery: ItemsRequest := ItemsRequest(0, 0, [], ["nope"], [], [])

  lemma NoKnownGroup()
    ensures GroupExpressions(EventsCatalog, UnknownGroupQuery.groups) == []
    ensures GroupByClause(EventsCatalog, UnknownGroupQuery.groups) == ""
  {
    assert "nope" !in EventsCatalog.dimensions;
    assert ["nope"][..0] == [];
  }

  /** Groups requested but none known: `uniq()` with nothing inside. */
  lemma UnknownGroupsTotal()
    ensures TotalStatement(EventsCatalog, UnknownGroupQuery) == Statement("SELECT uniq() AS " + "total" + " FROM " + "ev", [])
  {
    Assembly(EventsCatalog, UnknownGroupQuery);
    NoKnownGroup();
    NoFilters(EventsCatalog);
    QueryProperties.NoKnownGroupSelected(EventsCatalog, UnknownGroupQuery.groups);
    EmptyTail(TotalStatement(EventsCatalog, UnknownGroupQuery).sql);
  }

  /** Groups requested but none known: a SELECT list that opens with a bare comma, and no GROUP BY. */
  lemma UnknownGroupsValues()
    ensures ValuesStatement(EventsCatalog, UnknownGroupQuery) == Statement("SELECT , count(*) AS " + "total" + " FROM " + "ev" + " ", [])
  {
    Assembly(EventsCatalog, UnknownGroupQuery);
    NoKnownGroup();
    NoFilters(EventsCatalog);
    QueryProperties.NoKnownGroupSelected(EventsCatalog, UnknownGroupQuery.groups);
    assert OrderByClause(EventsCatalog, []) == "";
    assert LimitClause(0, 0) == "";
    EmptyTail(ValuesStatement(EventsCatalog, UnknownGroupQuery).sql);
  }

  // ----- literal steps -----
  //
  // Each lemma below equates concatenated pieces with the literal they
  // spell. Comparing string literals is costly for the verifier, so each
  // comparison is proved on its own, in a context holding nothing else,
  // and the scenarios above only cite the result.

  /** Regrouping a concatenation. */
  lemma Associate(x: string, y: string, z: string)
    ensures x + y + z == x + (y + z)
  {
  }

  /** Empty clauses leave the text as it is. */
  lemma EmptyTail(s: string)
    ensures s + "" == s
    ensures s + "" + "" == s
  {
  }

  /** The WHERE text of the test request, from its pieces. */
  lemma GeoWhereText(w: string)
    requires w == "geo_id" + " IN (" + "?,?,?" + ")"
    ensures " WHERE " + w == " WHERE geo_id IN (?,?,?)"
  {
    assert w == "geo_id IN (?,?,?)";
  }

  /** The GROUP BY text of the test request, from its pieces. */
  lemma GroupByText(j: string)
    requires j == "user_id,geo_id"
    ensures " GROUP BY  " + j == " GROUP BY  user_id,geo_id"
  {
  }

  /** The ORDER BY text of the test request, from its pieces. */
  lemma OrderText(term: string)
    requires term == "user_id" + " " + "desc"
    ensures " ORDER BY " + term == " ORDER BY user_id desc"
  {
    assert term == "user_id desc";
  }

  /** The LIMIT text of the test request, from its pieces. */
  lemma LimitText(o: string, l: string)
    requires o == "1000" && l == "100"
    ensures " LIMIT " + o + ", " + l == " LIMIT 1000, 100"
  {
  }
}
