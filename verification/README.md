# statistica: the query compiler, row decoders and merge engine in Dafny

This project models the core of `statistica`, a small Go library that answers
statistics requests against a SQL table (ClickHouse in practice). It also
proves properties of that model. The core has three parts:

- **Query compiler** (`read.go`). It turns an `ItemsRequest` (groups, filters,
  sort keys, limit and offset) into one SQL statement and its positional
  parameters, resolved against a catalog of dimensions and metrics. It builds
  three statements:
  - `Total`: a distinct count over the group expressions, or a row count
    when no groups are requested;
  - `Values`: the group columns plus `count(*)`;
  - `Grouped`: the group columns plus every catalog metric.

  Keys the catalog does not know are skipped, not reported.
- **Row decoders** (`read.go`). They cover the loops that turn scanned cells
  into a `uint64` total, into `ValueResponse` tuples or into `ItemRow` maps,
  including:
  - the `*interface{}` unwrapping;
  - the NaN/Inf sanitation of float64 values;
  - the unsigned-then-signed cast chain of `Total`.
- **Merge engine** (`transform.go`). It folds several item responses, or
  several value responses, into one. Rows with equal dimension maps are
  combined by adding their metrics. Values with equal key tuples are combined
  by adding their counts. Item totals are added as `uint64`.

Modules:

| file | module | contents |
|---|---|---|
| `wrappers.dfy` | `Wrappers` | `Option` and `Result` |
| `text.dfy` | `Text` | `strings.Join`, `strings.Repeat`, `strings.TrimRight`, character counting, decimal formatting and parsing |
| `entities.dfy` | `Entities` | request, catalog, response and scanned-value types |
| `query.dfy` | `Query` | the SQL builders and the statement assembly of `Total`, `Values` and `Grouped` |
| `query_properties.dfy` | `QueryProperties` | placeholder counts, parameter order, unknown keys, the LIMIT round trip, what each statement depends on |
| `query_scenarios.dfy` | `QueryScenarios` | the statements the repository's tests expect, plus two statements built for a request whose group keys are all unknown |
| `decode.dfy` | `Decode` | `unwrapPointerInterface`, `safeNaN`, `castUInt64`, `castInt64`, and the row loops of `Total`, `Values` and `Grouped` |
| `keyed_union.dfy` | `KeyedUnion` | the generic first-seen keyed merge, with a closed-form reference definition |
| `transform.dfy` | `Transform` | `unionRowResponse`, `unionValueResponse`, `UnionItemsResponse` and `UnionValuesResponse` as loops |
| `transform_properties.dfy` | `TransformProperties` | per-key sums, distinct keys, merging in stages |
| `transform_scenarios.dfy` | `TransformScenarios` | the cases of `transform_test.go` |

Modelling choices:

- A scanned cell is a `Value`. `Ptr` is a typed destination and is never
  unwrapped. `BoxPtr` is a `*interface{}`.
- Go's `uint64(int64)` conversion is written out as wrapping by 2^64. The
  `uint64` total of a merge is taken modulo 2^64.
- SQL text is modelled character for character, including the double spaces
  the builders leave:
  - `" FROM test_table  WHERE"`, from `" FROM %s "` followed by `" WHERE …"`;
  - `" GROUP BY  "`.

  The repository's tests compare statements through the SQL mock, which
  collapses runs of whitespace. Their expected texts therefore appear here in
  the exact form the builders produce.
- A filter condition is any string. Unrecognised tags, the empty tag
  included, fall into the `default` branch of the `switch` (`IN (…)`).
- Metric values and counts in the merge are Dafny `int`s.

## Model

| member | source | states |
|---|---|---|
| Query.GetDimension | read.go:286-291 | a dimension is found exactly when its key is in the catalog, and then it is that catalog entry |
| Query.TotalColumnName | read.go:368-374 | the total column is called `total` unless a non-empty name is configured |
| Query.GroupExpressions | read.go:248-256 | the resolved group expressions: empty iff no key is known; with all keys known, one expression per key in request order; every expression belongs to some requested known key |
| Query.OrderTerms | read.go:262-274 | every term is `expression direction` of some sort key that is a dimension; with all keys known, term i is that of sort key i; empty iff no key is a dimension |
| Query.SelectTotal | read.go:349-366 | the list opens with `SELECT uniq(` exactly when groups are requested, and always ends with ` AS ` and the total column name |
| Query.GroupColumns | read.go:379-389 | the group prefix is empty exactly when no groups are requested; otherwise it ends in `, `, and it is a bare `, ` when no requested key is known |
| Query.SelectValue | read.go:376-391 | the list opens with `SELECT ` and always closes with `count(*) AS` and the total column name, which stands alone exactly when no groups are requested; KnownGroupsSelected and NoKnownGroupSelected state what comes before it |
| Query.SelectGrouped | read.go:393-415 | the list opens with `SELECT ` and always closes with every catalog metric, which stand alone exactly when no groups are requested; KnownGroupsSelected and NoKnownGroupSelected state what comes before them |
| QueryProperties.KnownGroupsSelected | read.go:349-415 | with every requested group known, Total is `uniq` over their catalog expressions joined by commas, Values lists them before `count(*) AS` and the total column name, Grouped before every catalog metric |
| QueryProperties.NoKnownGroupSelected | read.go:349-415 | with groups requested but none known, Total is `SELECT uniq() AS` and the total column name, and the Values and Grouped lists open with a bare `, ` |
| QueryProperties.NoGroupsSelected | read.go:349-415 | without groups, Total and Values select the same `count(*) AS` the total column name, and Grouped selects only the catalog metrics |
| QueryProperties.CountOnlyCatalogSelectsAlike | read.go:376-415 | a catalog whose only metric is `count(*)` named like the total column makes Grouped select exactly what Values selects |
| Query.MetricColumns | read.go:408-412 | one `expression AS name` column per catalog metric, in catalog order |
| Query.GroupByClause | read.go:248-260 | GROUP BY is omitted exactly when no requested group key is a known dimension |
| Query.OrderByClause | read.go:262-279 | ORDER BY is omitted exactly when no sort key is a known dimension |
| Query.LimitClause | read.go:417-423 | a LIMIT clause is written exactly when the limit is positive |
| Query.WhereLoopJoinsConditions | read.go:293-342 | the filter loop's text is the qualifying conditions joined by ` AND ` (the guard puts no `AND` in front), and its parameters are their values in filter order |
| Query.ApplyWhere | read.go:293-347 | WHERE is omitted iff no filter qualifies; otherwise it is ` WHERE ` and the joined conditions; the parameters are the qualifying filters' values |
| Query.TotalStatement | read.go:94-102 | the Total statement binds exactly the WHERE parameters |
| Query.ValuesStatement | read.go:144-153 | the Values statement binds exactly the WHERE parameters |
| Query.GroupedStatement | read.go:194-205 | the Grouped statement binds exactly the WHERE parameters |
| QueryProperties.PlaceholderListShape | read.go:313-315 | the `IN` list for n values is n `?` joined by commas: n placeholders, ending in `?` |
| QueryProperties.NotInListShape | read.go:317-319 | the `NOT IN` list for n values has n placeholders and keeps a trailing comma |
| QueryProperties.FilterPlaceholders | read.go:312-339 | a condition writes one `?` character per value for `IN`/`NOT IN` and the default, one `?` for the other shapes, plus those inside the expression |
| QueryProperties.SingleMarkShapes | read.go:321-334 | `like`, `>`, `>=`, `<` and `<=` write exactly one `?` character whatever the number of values |
| QueryProperties.WherePlaceholderCount | read.go:293-347 | the `?` characters of the WHERE text and the parameter count are computed by two different rules over the qualifying filters |
| QueryProperties.PlaceholdersMatchParams | read.go:305-339 | with `?`-free expressions, the `?` characters of the WHERE text never exceed the parameters, and they are equal iff every qualifying single-`?` filter has exactly one value |
| QueryProperties.ParametersInFilterOrder | read.go:297-306 | parameters are the value lists of the qualifying filters back to back in filter order; a filter that does not qualify contributes nothing |
| QueryProperties.UnqualifiedFilterDropped | read.go:298-305 | a filter with an unknown key, an empty expression or no values leaves text and parameters unchanged |
| QueryProperties.UnknownGroupDropped | read.go:250-256 | an unknown group key leaves GROUP BY as if it had not been requested |
| QueryProperties.UnknownSortKeyDropped | read.go:265-273 | a sort key that is not a dimension (a metric name, say) leaves ORDER BY as if it had not been requested |
| QueryProperties.LimitRoundTrip | read.go:417-423 | reading the LIMIT clause back as `LIMIT offset, count` gives the requested page: a window, the first `limit` rows, or everything when the limit is not positive |
| QueryProperties.WindowRoundTrip | read.go:418-419 | `LIMIT offset, limit` parses back to that window |
| QueryProperties.FirstRoundTrip | read.go:420-421 | `LIMIT limit` parses back to the first `limit` rows |
| QueryProperties.TotalIgnoresPaging | read.go:94-102 | the Total statement does not depend on sort keys, limit, offset or requested metrics |
| QueryProperties.RequestedMetricsIgnored | read.go:393-415 | the Grouped and Values statements do not depend on the requested metrics |
| QueryProperties.OrderThenLimitLast | read.go:148-153 | Values and Grouped end with ORDER BY and then LIMIT, after everything else |
| QueryProperties.SharedParameters | read.go:200-205 | Total, Values and Grouped bind the same parameters |
| QueryScenarios.RepositoryTestStatements | read_test.go:125-131 | the test request compiles to `SELECT uniq(user_id,geo_id) AS total FROM test_table WHERE geo_id IN (?,?,?)` and to the Values/Grouped text with `GROUP BY … ORDER BY user_id desc LIMIT 1000, 100`, binding 1, 2, 4 |
| QueryScenarios.TestTotal | read_test.go:152-155 | the Total statement of the test request, text and parameters |
| QueryScenarios.TestValues | read_test.go:126-131 | the Values statement of the test request, text and parameters |
| QueryScenarios.TestGrouped | read_test.go:231-236 | the Grouped statement of the test request equals the Values one for a one-metric `count(*) AS total` catalog |
| QueryScenarios.EventsGroupedStatement | read.go:393-415 | with metrics `n` and `s`, Grouped selects both although only `s` is requested, and sorting by the metric `s` adds no ORDER BY |
| QueryScenarios.EventsTotalStatement | read.go:365 | without groups, Total is `SELECT count(*) AS total FROM ev` |
| QueryScenarios.UnknownGroupsTotal | read.go:349-362 | groups requested but none known: Total selects `uniq()` with nothing inside |
| QueryScenarios.UnknownGroupsValues | read.go:376-391 | groups requested but none known: the Values SELECT list opens with a bare `, ` and no GROUP BY follows |
| Decode.CastUInt64 | read.go:441-456 | exactly the unsigned integers cast, to their own value |
| Decode.CastInt64 | read.go:458-473 | exactly the signed integers cast, to their own value |
| Decode.AsUInt64 | read.go:134-135 | `uint64(int64)` keeps the value modulo 2^64 and is the identity on non-negative numbers |
| Decode.CountOf | read.go:130-136 | the cast chain succeeds exactly on integers: unsigned values as they are, signed ones reinterpreted |
| Decode.Unwrap | read.go:425-431 | a `*interface{}` yields the value it holds, one level only; every other value, a typed pointer included, comes back as it is |
| Decode.SafeNaN | read.go:433-439 | the result is never a bare NaN/Inf float64: such a value becomes the Go `int` 0 and every other value passes unchanged |
| Decode.TypedNonFiniteUnsanitised | read.go:425-439 | a typed destination holding a NaN/Inf float64 is neither unwrapped nor sanitised |
| Decode.UnwrapOnlyBoxes | read.go:425-431 | unwrapping changes exactly the `*interface{}` values, removing one level |
| Decode.SafeNaNContract | read.go:433-439 | sanitation changes exactly the bare NaN/Inf float64 values, into the Go `int` 0; no bare NaN/Inf float64 is left (float32 ones and typed pointers pass); it is idempotent |
| Decode.SafeNaNKeepsOtherFloats | read.go:433-439 | float32 NaN/Inf and finite float64 values pass unchanged |
| Decode.TypedPointerNeverCounts | read.go:425-431 | a typed pointer is never unwrapped, so it never casts to a count |
| Decode.FirstCount | read.go:126-137 | reference: none iff no cell casts; otherwise the count of the leftmost cell that casts |
| Decode.TotalOfRow | read.go:126-140 | the loop returns the count of the first cell that casts, or 0 when none does |
| Decode.TotalIsFirstCount | read.go:126-140 | the loop's result equals the reference first count, defaulting to 0 |
| Decode.DecodeTotal | read.go:119-140 | no row gives 0; a failed scan of the first row is the error; otherwise the first row alone decides |
| Decode.NegativeCountWraps | read.go:134-135 | a negative signed count becomes 2^64 plus its value, at least 2^63 |
| Decode.NaNColumnDecidesTotal | read.go:126-136 | a bare (`*interface{}`-scanned) NaN float64 in the first column yields total 0 whatever follows |
| Decode.TypedNaNColumnSkipped | read.go:126-136 | a NaN float64 behind a typed destination in the first column does not count, so the columns after it decide the total |
| Decode.ValueRowContents | read.go:174-187 | name i is group i and key i the unwrapped column i when the row has that column (nil otherwise); the count is the sanitised last column past the groups, else 0 |
| Decode.DecodeValues | read.go:166-191 | the first failed scan aborts with its error; otherwise one value row per scanned row, in order |
| Decode.ItemRowContents | read.go:230-241 | a dimension is present iff a column within the groups is assigned to it, holding the last such column unwrapped; a metric is present iff a column past the groups bears its name, holding the last such column sanitised |
| Decode.MetricsSanitised | read.go:239 | no metric of a decoded row is a bare NaN or infinite float64 |
| Decode.TypedMetricUnsanitised | read.go:235-239 | a metric whose last column is a typed destination holds that pointer unchanged, so a NaN/Inf float64 behind it is not sanitised |
| Decode.DecodeGrouped | read.go:222-245 | the first failed scan aborts with its error; otherwise one grouped row per scanned row, in order |
| KeyedUnion.CollapseClosedForm | transform.go:20-32 | the index-based merge yields one row per distinct key in first-seen order, each the left fold of the rows carrying that key |
| KeyedUnion.CollapseDistinct | transform.go:23-31 | rows whose keys are already distinct come through unchanged |
| KeyedUnion.CollapseIdempotent | transform.go:23-31 | the merge output has distinct keys, so merging it again changes nothing |
| KeyedUnion.MergeInStages | transform.go:20-32 | merging a merged prefix with further rows equals merging everything at once |
| KeyedUnion.DedupFirstSeenOrder | transform.go:30-31 | merged keys appear in the order of their first occurrence in the input |
| Transform.AddInto | transform.go:81-86 | every metric of `b` is added to `a`'s (0 when absent); metrics only `a` has are kept; the key set is the union |
| Transform.UnionRowResponse | transform.go:76-87 | nil on either side is a no-op; otherwise the first row keeps its dimensions and its metrics become the key-wise sum |
| Transform.UnionValueResponse | transform.go:89-95 | nil on either side is a no-op; otherwise the counts add and the name and key of `a` stay |
| Transform.DimensionsOf | transform.go:68-70 | an item row is merged on its whole dimension map; CombinePreservesKeys and TransformProperties.MergedRowsKeys state what the merge does with that key |
| Transform.KeyOf | transform.go:72-74 | a value is merged on its key tuple alone, not its names; CombinePreservesKeys and TransformProperties.MergedValuesKeys state what the merge does with that key |
| Transform.CombinePreservesKeys | transform.go:68-74 | combining never changes a row's dimension map or a value's key tuple, the merge keys |
| Transform.MergeRowsInto | transform.go:23-32 | the inner loop extends the merge of the rows seen so far by one response's rows and keeps the index exact |
| Transform.MergeValuesInto | transform.go:51-60 | the inner loop extends the merge of the values seen so far by one response's values and keeps the index exact |
| Transform.UnionItemsResponse | transform.go:8-38 | nil iff nothing is given; otherwise the keyed merge of all rows in order, and the total is the sum of the totals modulo 2^64 |
| Transform.UnionValuesResponse | transform.go:41-66 | nil iff nothing is given; otherwise the merge of all values keyed on the key tuple |
| TransformProperties.AddMetricsCommutes | transform.go:81-86 | adding metric maps is commutative |
| TransformProperties.AddMetricsAssociates | transform.go:81-86 | adding metric maps is associative |
| TransformProperties.AddMetricsIdentity | transform.go:81-86 | adding an empty metric map changes nothing |
| TransformProperties.FoldRowsSums | transform.go:76-87 | rows combined left to right keep the first dimensions, carry every metric name of any of them, and sum each metric |
| TransformProperties.FoldValuesSums | transform.go:89-95 | values combined left to right keep the first name and key and sum the counts |
| TransformProperties.MergedRowsContents | transform.go:20-32 | one merged row per distinct dimension map in first-seen order, carrying each metric summed over all rows with that map |
| TransformProperties.MergedValuesContents | transform.go:49-60 | one merged value per distinct key tuple in first-seen order, named as the first of them, with the counts summed |
| TransformProperties.MergedRowsKeys | transform.go:68-70 | the merged rows have distinct dimension maps, the same set as the input |
| TransformProperties.MergedValuesKeys | transform.go:72-74 | the merged values have distinct key tuples, the same set as the input |
| TransformProperties.AllRowsConcat | transform.go:20-34 | the rows and the total sum of concatenated response lists concatenate and add |
| TransformProperties.ItemsMergeInStages | transform.go:8-38 | for non-empty `xs`, merging the union of `xs` with `ys` gives the union of `xs + ys`, rows and wrapped total alike |
| TransformProperties.ValuesMergeInStages | transform.go:41-66 | for a non-empty first round, value merges in stages agree with a single merge |
| TransformProperties.ItemsUnionIdempotent | transform.go:8-38 | the union of a single merged response (of at least one response) is that response |
| TransformScenarios.BaseUnionOfItems | transform_test.go:20-62 | two responses with one `k1: key1` row each (m1 100 and 200, totals 100 each) merge into one row with m1 300 and total 200 |
| TransformScenarios.MergeAllMetrics | transform_test.go:157-178 | `{a:100, c:400}` merged with `{a:100, b:300}` gives `{a:200, b:300, c:400}` |
| TransformScenarios.BaseUnionOfValues | transform_test.go:114-131 | two values with the same names and keys and counts 100 and 200 merge into count 300 |
| Text.DecimalRoundTrip | read.go:419 | the `%d` rendering of a natural number parses back to it |

## Left out

- Executing SQL is not modelled: `conn.Query`, `ColumnTypes`, `rows.Next`, `rows.Scan` and `makeDestFromTypes` (read.go:80-92). A cursor is a sequence of scanned rows, each either the scanned cells or the scan's error. A failing `Query` or `ColumnTypes` call is not modelled, since the driver decides it.
- Logging through zap is not modelled. It has no effect on results.
- The functional-option constructor, `Metrics()` and `Ping` are not modelled. The catalog is given directly as a map from dimension name to dimension; if two dimensions share a name, the constructor's map keeps the last one.
- `write.go` is not modelled. `AddRows` returns nil without doing anything.
- Floating-point arithmetic is not modelled. A float is only finite, NaN or infinite, which is what `safeNaN` tells apart. The range of narrower integer widths (`uint8` …) is not enforced.
- Pointer aliasing is not modelled. The Go merge appends the caller's row and value pointers and then adds into them, so it mutates its inputs. The model is functional and returns new values.
- Transform.UnionItemsResponse: two different dimension maps whose `%v` renderings coincide are merged by Go but kept apart by the model. An example is `1` against `"1"`. The model compares keys structurally.
- Transform.UnionItemsResponse: the converse holds too. For a column with a typed scan destination, read.go:83-84 allocates a fresh pointer per row, and read.go:237 stores that pointer itself as the dimension. Go's `%v` then prints its address, so two such rows never merge in Go. The model compares `Ptr(target)` structurally and does merge them.
- Transform.UnionValuesResponse: likewise, the model compares key tuples structurally rather than by their `%v` rendering, in both directions. Equal renderings of different keys are merged by Go and kept apart by the model. Typed-pointer keys (read.go:183) are never merged by Go but are merged by the model when their targets are equal.
- QueryProperties.PlaceholdersMatchParams: counts `?` characters, not placeholders the driver binds. For `like`, the `?` sits inside the string literal `'%?%'` (read.go:322). A driver that does not rewrite inside quotes binds none there, leaving a one-value `like` filter with 0 placeholders against 1 parameter. Which drivers rewrite inside quotes is outside this model.
- Nil responses or nil rows given to `UnionItemsResponse`/`UnionValuesResponse` make Go panic and are not modelled. The same applies to adding into a row whose metric map is nil.
- Transform.UnionRowResponse: metric values (`ValueNumber`) and counts (`interface{}` in Go) are added as unbounded integers. Overflow and float metrics are not modelled.
- Decode.MetricsSanitised: holds for bare values only. A column whose database type name the driver reports is scanned into a typed destination (read.go:83-84), which `unwrapPointerInterface` leaves as it is, so `safeNaN` at read.go:239 never sees the float64 behind it. A NaN or infinite metric in such a column therefore reaches the row unsanitised, and the model keeps that behaviour (Decode.TypedMetricUnsanitised). The same holds for the count of `Values` and the total columns (Decode.TypedNaNColumnSkipped).
- Decode.DecodeValues and Decode.DecodeGrouped: the row loop assumes the driver reports the same columns for every row, as `types` is read once per query.
- The repository's tests compare SQL with whitespace runs collapsed. The scenarios state the exact text instead, which is stronger.
