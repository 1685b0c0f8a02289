# Relay cursor pagination over knex, modelled in Dafny

This project models the cursor pagination core of apollo-cursor-pagination:
the knex connector (`src/orm-connectors/knex/custom-pagination.js`) and the
connection builder (`src/builder/index.js`). A request carries any of
`before`, `after`, `first` and `last`, plus an ordering. The builder:

1. orders the table by the requested columns, with the id columns appended
   as tiebreakers;
2. in the intended builder, keeps the rows strictly past the `after` cursor,
   then strictly before the `before` cursor. The code as written differs on
   NULL cells; see "## Findings";
3. in the intended builder, fetches `first + 1` rows from the front or
   `last + 1` from the back, to learn whether another page exists. The code
   as written takes the `last` rows from the front and reverses them; see
   "## Findings";
4. returns a Relay connection: edges holding a node and its cursor, page
   info with the page flags and the first and last cursors, and a total
   count.

A cursor holds the row's cells at the combined columns. Each cell is
JSON-stringified and percent-encoded, and the fields are joined with `/`.
In the intended builder the text is then base-64 encoded, which is what
getDataFromCursor undoes. The code as written leaves out that step; see
"## Findings".

Both the code as written and the intended program are modelled. The
as-written members exhibit each discrepancy. The pagination chain
(`PaginationBuilder.RemoveNodes`, `Window.FetchLast`,
`CursorCodec.NodeCursor` and everything built on them) models the intended
program.

The database is a sequence of rows (`map<Column, Option<Value>>`, where
`None` is SQL NULL):

- ORDER BY is `RowOrder.SortRows`, a lexicographic order over the column
  directions in which NULL is the least value;
- the cursor filter's WHERE clause is `RangeFilter.Keep`;
- `limit` is `Window.Limit`;
- `count` is the length of the table.

Modules, in dependency order:

- `Wrappers`: the `Option` and `Result` types.
- `Hex`, `Json`, `PercentEncoding`, `Base64`: the cursor's codecs.
- `Values`: cells and their comparison.
- `CursorCodec`: building and decoding cursors.
- `ColumnSet`: combining the order and id columns.
- `RowOrder`: sorting rows.
- `RangeFilter`: the filter built from a cursor.
- `Window`: limits and over-fetching.
- `PaginationBuilder`: `nodesToReturn`.
- `ConnectionBuilder`: the builder's connection assembly.
- `PaginationProperties`: end-to-end properties of paging.

Each step the source writes as a loop or a sequence of reassignments is a
method proved equal to a specification function. The lemmas are stated
about those functions.

## Model

| member | source | states |
|---|---|---|
| ColumnSet.IdContains | src/orm-connectors/knex/custom-pagination.js:67-73 | true exactly when the column is one of the order columns |
| ColumnSet.CombinedColumnsSpec | src/orm-connectors/knex/custom-pagination.js:98-123 | The combined columns and directions have equal length and start with the caller's columns and directions unchanged. Every id column appears. Every appended column is an id column not already ordered and takes the last direction. Distinct order and id columns give distinct combined columns. The appended id columns keep their order in idColumn. |
| ColumnSet.CombineOrderColumnAndAscOrDesc | src/orm-connectors/knex/custom-pagination.js:98-123 | the loop that pushes the missing id columns returns exactly the combined columns and directions above |
| Values.CellCompare | src/orm-connectors/knex/custom-pagination.js:168-169 | the cell order, with NULL below every value; two cells compare Equal exactly when they are the same cell |
| RowOrder.LexCompare | src/orm-connectors/knex/custom-pagination.js:207-218 | the ORDER BY comparison of two tuples, column by column in each column's direction; Equal exactly when the tuples are equal |
| RowOrder.LexCompareFlip | src/orm-connectors/knex/custom-pagination.js:207-218 | swapping the tuples flips the outcome |
| RowOrder.LexCompareTransitive | src/orm-connectors/knex/custom-pagination.js:207-218 | Less is transitive |
| RowOrder.LexCompareDecided | src/orm-connectors/knex/custom-pagination.js:158-181 | a tuple is Less or Greater than another exactly when they agree on some prefix and the next column decides it; this is the shape of the OR of AND-terms |
| RowOrder.SortRowsSpec | src/orm-connectors/knex/custom-pagination.js:207-218 | The ordered result is a permutation of the table, sorted by the clauses. When no two rows share all the combined cells, it is the only such ordering. |
| RowOrder.SortRowsPermutes | src/orm-connectors/knex/custom-pagination.js:207-218 | ordering the table keeps every row exactly as often as it occurs, and adds none |
| RowOrder.OrderNodesBy | src/orm-connectors/knex/custom-pagination.js:207-218 | the ORDER BY clauses pushed are the combined columns with their combined directions, in order |
| RangeFilter.GetComparator | src/orm-connectors/knex/custom-pagination.js:127-130 | `gt` exactly when the side is `Before` (removeNodesBeforeAndIncluding, used for the `after` argument) and the column is ascending, or the side is `After` (removeNodesAfterAndIncluding, used for the `before` argument) and the column is descending |
| RangeFilter.ComparatorMeaning | src/orm-connectors/knex/custom-pagination.js:127-130 | the comparator selects exactly the cells strictly past the cursor in display order, and the two sides always get opposite comparators |
| RangeFilter.AreAnyColumnsAggregates | src/orm-connectors/knex/custom-pagination.js:194-195 | true exactly when some combined column is an aggregate |
| RangeFilter.Keep | src/orm-connectors/knex/custom-pagination.js:200-203 | a row is kept exactly when it is in the input and the OR admits it, and nothing is added |
| RangeFilter.KeepAppend | src/orm-connectors/knex/custom-pagination.js:200-203 | the WHERE clause works row by row and keeps the table's order: filtering a concatenation filters each part |
| RangeFilter.KeepSingle | src/orm-connectors/knex/custom-pagination.js:200-203 | a single row is kept exactly when the OR admits it; with KeepAppend this fixes the result's order and multiplicity |
| RangeFilter.BuildFilter | src/orm-connectors/knex/custom-pagination.js:145-192 | the nested loops build exactly the OR of the filter specification, term by term |
| RangeFilter.ExecuteFilterQuery | src/orm-connectors/knex/custom-pagination.js:137-201 | the OR is built over the combined columns, and HAVING is chosen exactly when some combined column is an aggregate |
| RangeFilter.CorrectedTermAt | src/orm-connectors/knex/custom-pagination.js:158-190 | the terms for column k admit exactly the rows that equal the cursor before k and lie strictly past it at k |
| RangeFilter.CorrectedFilterIsLexOrder | src/orm-connectors/knex/custom-pagination.js:145-192 | the filter admits a row exactly when the row's tuple comes strictly after the cursor (for `after`) or strictly before it (for `before`) in the sort order; a cursor with too few fields reads as NULLs |
| RangeFilter.AsWrittenTermAt | src/orm-connectors/knex/custom-pagination.js:168-181 | the code's terms for column k never admit more than the correct terms under `after`, and they admit the same rows wherever the NULL cases do not arise |
| RangeFilter.AsWrittenFilterIsLexOrder | src/orm-connectors/knex/custom-pagination.js:168-181 | the code's filter is the sort order on every row for which no column hits a NULL case |
| RangeFilter.AsWrittenAfterIsSound | src/orm-connectors/knex/custom-pagination.js:168-181 | under `after`, the code's filter never admits a row at or before the cursor |
| RangeFilter.AsWrittenAfterWithoutNulls | src/orm-connectors/knex/custom-pagination.js:168-181 | under `after`, the code's filter is exact on rows with no NULL in a descending column |
| RangeFilter.AsWrittenBeforeWithoutNulls | src/orm-connectors/knex/custom-pagination.js:168-181 | under `before`, the code's filter is exact when the cursor has no NULL and the row has no NULL in an ascending column |
| RangeFilter.AsWrittenBeforeAdmitsLaterRow | src/orm-connectors/knex/custom-pagination.js:170-177 | a concrete `before` cursor with a NULL in an ascending column, and a row after it that the code's filter keeps |
| RangeFilter.AsWrittenAfterDropsNullRow | src/orm-connectors/knex/custom-pagination.js:178-181 | a concrete `after` cursor on descending columns, and a row with a NULL score after it that the code's filter drops |
| Window.Limit | src/orm-connectors/knex/custom-pagination.js:230 | `limit(n)` gives the first min(n, length) rows |
| Window.RemoveNodesFromEnd | src/orm-connectors/knex/custom-pagination.js:226-230 | removeNodesFromEnd keeps the first min(n, length) rows, in order |
| Window.RemoveNodesFromBeginningAsWritten | src/orm-connectors/knex/custom-pagination.js:242-250 | the code's removeNodesFromBeginning returns min(n, length) rows: the first ones, in reverse order |
| Window.RemoveNodesFromBeginning | src/orm-connectors/knex/custom-pagination.js:238-250 | the documented removeNodesFromBeginning, which takes n rows from the flipped order and flips them back, gives the last min(n, length) rows in display order |
| Window.RemoveNodesFromBeginningExample | src/orm-connectors/knex/custom-pagination.js:238-250 | the documented example `[A, B, C, D]` with 3 gives `[B, C, D]`; the code as written gives `[C, B, A]` |
| Window.HasLengthGreaterThan | src/orm-connectors/knex/custom-pagination.js:263-266 | fetching amount + 1 rows and getting them all back happens exactly when there are more than amount rows |
| Window.FetchFirst | src/builder/index.js:73-80 | the `first` over-fetch leaves the first min(n, length) rows and reports more exactly when length > n |
| Window.FetchLast | src/builder/index.js:81-88 | the `last` over-fetch leaves the last min(n, length) rows and reports more exactly when length > n |
| CursorCodec.EncodeField | src/orm-connectors/knex/custom-pagination.js:49 | an encoded field is ASCII and never contains the `/` separator |
| CursorCodec.DecodeEncodeField | src/orm-connectors/knex/custom-pagination.js:34 | percent-decoding and then JSON-parsing an encoded field gives back the cell |
| CursorCodec.SplitJoin | src/orm-connectors/knex/custom-pagination.js:34 | splitting fields joined with `/` on `/` gives back the fields, when none contains `/` |
| CursorCodec.JoinSplit | src/orm-connectors/knex/custom-pagination.js:34 | joining the pieces of a split with `/` gives back the text: split loses only the separators |
| CursorCodec.SplitPiecesClean | src/orm-connectors/knex/custom-pagination.js:34 | no piece of a split contains `/` |
| CursorCodec.DecodeFieldsSpec | src/orm-connectors/knex/custom-pagination.js:34 | the map over the pieces succeeds exactly when every piece percent-decodes and JSON-parses; cell i is piece i decoded |
| CursorCodec.GetDataFromCursorSpec | src/orm-connectors/knex/custom-pagination.js:32-35 | a cursor is read exactly when it base-64 decodes and every `/` piece decodes; it then yields one cell per piece, in order |
| CursorCodec.GetDataFromCursorOf | src/orm-connectors/knex/custom-pagination.js:32-35 | getDataFromCursor applied to the cursor of a non-empty tuple of cells gives that tuple |
| CursorCodec.CursorOfInjective | src/orm-connectors/knex/custom-pagination.js:47-51 | different tuples never share a cursor |
| CursorCodec.CursorOfNonEmpty | src/builder/index.js:21-26 | a cursor is never the empty text, which the builder would treat as no cursor |
| CursorCodec.CursorAsWritten | src/orm-connectors/knex/custom-pagination.js:47-51 | the edge cursor as the code builds it is ASCII, and splitting it on `/` gives back the encoded fields: it is the joined text with no base-64 wrap |
| CursorCodec.CursorAsWrittenIsRejected | src/orm-connectors/knex/custom-pagination.js:47-51 | the edge cursor as the code builds it, for a row whose only cell is 1, is "1", and getDataFromCursor rejects it |
| CursorCodec.NodeCursor | src/orm-connectors/knex/custom-pagination.js:47-51 | the field-by-field loop builds the cursor of the node's cells at the combined columns |
| CursorCodec.ConvertNodesToEdges | src/orm-connectors/knex/custom-pagination.js:42-57 | one edge per node, in order, each carrying the cursor of its node |
| CursorCodec.EdgesOfDecode | src/orm-connectors/knex/custom-pagination.js:42-57 | every edge keeps its node, and its cursor decodes to that node's cells |
| Json.ParseStringify | src/orm-connectors/knex/custom-pagination.js:49 | JSON.parse undoes JSON.stringify on NULL, whole numbers and strings |
| PercentEncoding.DecodeEncode | src/orm-connectors/knex/custom-pagination.js:34 | decodeURIComponent undoes encodeURIComponent on every string, including its UTF-8 escapes |
| Base64.DecodeEncode | src/orm-connectors/knex/custom-pagination.js:9-10 | base-64 decoding undoes base-64 encoding on every text of octets |
| PaginationBuilder.RemoveNodes | src/orm-connectors/knex/custom-pagination.js:131-204 | A cursor that fails to decode is an error. A missing isAggregateFn is an error. Otherwise the rows kept are those the filter over the combined columns admits. |
| PaginationBuilder.ApplyCursorsToNodes | src/builder/index.js:11-32 | a non-empty `after` narrows first and a non-empty `before` narrows second, and the first error stops the chain |
| PaginationBuilder.CutPage | src/builder/index.js:70-89 | A negative `first` or `last` is an error. Otherwise the page is the `last` window if `last` is non-zero, else the `first` window. The flags are seeded from the cursors and set by the over-fetch. |
| PaginationBuilder.NodesToReturn | src/builder/index.js:41-90 | order the table, narrow it by the cursors, and cut the page, as the specification composes them |
| ConnectionBuilder.SortOrder | src/builder/index.js:108-123 | a legacy orderColumn/ascOrDesc pair wins; otherwise orderBy and orderDirection are used, defaulting to `id` and `asc` |
| ConnectionBuilder.TotalCountOf | src/builder/index.js:142-147 | the total count is 0 without getTotal, `false` exactly when getTotal and skipTotalCount are both set, and the table's size otherwise |
| ConnectionBuilder.AssembleConnection | src/builder/index.js:142-171 | the total count is 0 without getTotal, false when skipped, and the table's size otherwise; modifyNodeFn is applied; edges are built; the first and last cursors are read off the edges |
| ConnectionBuilder.Paginate | src/builder/index.js:105-172 | the legacy orderColumn/ascOrDesc pair wins over orderBy/orderDirection, which default to `id` and `asc`; the page is computed and the connection assembled |
| PaginationProperties.SortedIncreasing | src/orm-connectors/knex/custom-pagination.js:207-218 | when the combined cells identify each row, the ordered table is strictly increasing |
| PaginationProperties.KeepSlice | src/orm-connectors/knex/custom-pagination.js:200-203 | a filter that admits exactly the rows at positions lo..hi keeps that slice, in order |
| PaginationProperties.FilterAdmitsSide | src/orm-connectors/knex/custom-pagination.js:220-236 | on strictly increasing rows, the filter from row j's cells keeps exactly the rows after j (for `after`) or before j (for `before`) |
| PaginationProperties.RemoveThroughRow | src/orm-connectors/knex/custom-pagination.js:220-236 | the documented examples in general: removeNodesBeforeAndIncluding keeps the rows after the cursor's row, and removeNodesAfterAndIncluding keeps those before it |
| PaginationProperties.FirstPage | src/builder/index.js:73-80 | `first: k` alone gives the first k ordered rows, with a next page exactly when more rows exist |
| PaginationProperties.LastPage | src/builder/index.js:81-88 | `last: k` alone gives the last k ordered rows, with a previous page exactly when more rows exist |
| PaginationProperties.PageAfterRow | src/builder/index.js:60-80 | `after` a cursor of row j, together with `first: k`, gives the k rows that follow row j; hasPreviousPage is set |
| PaginationProperties.PageBeforeRow | src/builder/index.js:60-88 | `before` a cursor of row j, together with `last: k`, gives the k rows that precede row j; hasNextPage is set |
| PaginationProperties.AssembledPage | src/builder/index.js:149-171 | Without modifyNodeFn, the connection shows the page's nodes and flags. Its start and end cursors are non-empty and decode to the first and last nodes' cells. On an empty page both cursors are absent. |
| PaginationProperties.ConnectionCursorsDecode | src/builder/index.js:152-160 | without modifyNodeFn, every edge's cursor decodes to its node's cells at the combined columns |
| PaginationProperties.ForwardPagination | src/builder/index.js:41-90 | A first page of k rows, followed by the page `after` a cursor of its last row, together hold the first 2k ordered rows. The second page has a next page exactly when more rows remain. |
| PaginationProperties.BackwardPagination | src/builder/index.js:41-90 | A last page of k rows, preceded by the page `before` a cursor of its first row, together hold the last 2k ordered rows. The earlier page has a previous page exactly when more rows precede them. |
| PaginationProperties.ForwardByEndCursor | src/builder/index.js:105-172 | Paging forward by the connection's own cursor works. The first k rows, then the request `after` the first connection's endCursor, together show the first 2k ordered rows. The second connection has a previous page, and a next page exactly when rows remain. |
| PaginationProperties.BackwardByStartCursor | src/builder/index.js:105-172 | Paging backward by the connection's own cursor works. The last k rows, then the request `before` the first connection's startCursor, together show the last 2k ordered rows. The second connection has a next page, and a previous page exactly when rows precede them. |

## Left out

- `combineOrderColumn` (custom-pagination.js:75-94) returns an undefined name, so any call to it throws. Edge cursors therefore use the column half of `combineOrderColumnAndAscOrDesc`, which is what that function evidently meant.
- Scalar `orderColumn`, `ascOrDesc` and `idColumn` (the non-array branches of `operateOverScalarOrArray` and `idContains`) are modelled as one-element sequences.
- An empty order-column list, an `orderColumn` without `ascOrDesc`, and order and direction lists of different lengths are not modelled. `ValidOrder` requires equal, non-empty lists. With an empty list the code pushes an undefined direction for the id columns.
- `idColumn` must be supplied. Its `'id'` default in the filter (custom-pagination.js:132) is not modelled separately.
- JavaScript's distinction between `undefined` and `null` is not modelled: both are `None`. A cell for a column the row lacks is read as NULL.
- Cells are NULL, whole numbers or strings. Booleans, fractions, exponents, big numbers, dates and nested JSON values are left out. So are JSON whitespace and `\u` surrogate pairs.
- `Base64.Decode` accepts only padded input. Like the `base-64` package, it ignores the unused low bits of the final group, so "QR==" decodes as "QQ==" does (`Base64.DecodeIgnoresUnusedBits`). The package is also lenient about whitespace and missing padding, which the model is not. `Base64.Encode` throws on characters above U+00FF. Cursor text is always ASCII, so neither difference affects cursors the builder produces.
- The SQL engine is abstract:
  - `knex-graphql-filters`' `applyFilters` and the `where`/`having` choice are modelled only as the `having` flag;
  - a query that already has filters is not modelled;
  - `formatColumnFn` is the identity;
  - a direction string other than `asc` or `desc`, and the `toLowerCase` normalisation, are not modelled.
- SQL's three-valued comparison is simplified. A strict comparison never matches NULL, `is NULL` matches only NULL, and `not_null` matches only non-NULL values. `null == 0` conversions are not modelled.
- Cursor values and the ORDER BY use one total order, with NULL least and numbers before strings. Collations and mixed-type ordering in real databases are not modelled.
- `getNodesLength` (custom-pagination.js:253-261) is the length of the table. Its summing and parsing of driver-specific `count` columns is left out.
- `hasLengthGreaterThan` is modelled, but the builder never calls it.
- The asynchronous execution, the `console.warn` deprecation message, `nodesAccessor.clone()` and query-string rendering are left out, along with formatColumnOptions.
- With modifyNodeFn, edge cursors are built from the modified nodes, as in the code. The properties about cursors assume no modifyNodeFn.
- PaginationBuilder.RemoveNodes: a cursor with fewer fields than combined columns reads the missing fields as NULL, as the code does (`cursorValues[index]` is undefined). Extra fields are ignored. The code does not reject such cursors, although a malformed cursor is documented as an error.
- PaginationBuilder.CutPage: when both `first` and `last` are given, `last` wins and both flags can be set, as in the code.
- PaginationBuilder.RemoveNodes: a missing `isAggregateFn` is an error whenever a cursor is present, as the code's TypeError is. The where-versus-having choice it feeds is reduced to the `having` flag.
- Database errors and retries are not modelled: every query succeeds.
- PaginationBuilder.RemoveNodes: builds the filter with the corrected NULL rule (`Corrected`), not the code's. The code's rule is `AsWritten` in `RangeFilter`, and the first two "## Findings" rows show where it differs.
- Window.FetchLast: uses the documented `RemoveNodesFromBeginning` (the last n rows), not the code's `RemoveNodesFromBeginningAsWritten`, which reverses the first n rows (third "## Findings" row).
- CursorCodec.NodeCursor: adds the base-64 wrap that lines 47-51 of custom-pagination.js leave out, so that getDataFromCursor can read the cursor. The code's cursor is `CursorCodec.CursorAsWritten` (fourth "## Findings" row).
- ConnectionBuilder.Paginate: it is built on the three members above, so `PaginationBuilder.NodesToReturn`, `PaginationBuilder.CutPage`, `ConnectionBuilder.Paginate` and the end-to-end properties describe the intended program, not the code as written.

## Findings

| source | as written | input that shows it | evidently intended | confidence | as-written member | corrected member |
|---|---|---|---|---|---|---|
| src/orm-connectors/knex/custom-pagination.js:170-177 | the NULL-cursor rule skips the column's term when the column is descending and asks for NOT NULL otherwise, regardless of the comparator | `before` a cursor `[NULL, 5]` on `score asc, id asc`; a row `score 1, id 3` sorts after the cursor but is kept | skip the term when the comparator is `lt` (nothing is less than NULL), ask for NOT NULL when it is `gt` | not executed | RangeFilter.AsWrittenBeforeAdmitsLaterRow | RangeFilter.CorrectedFilterIsLexOrder |
| src/orm-connectors/knex/custom-pagination.js:178-181 | an `lt` comparison against a non-NULL cursor value never matches a NULL cell, although NULL sorts lowest | `after` a cursor `[5, 9]` on `score desc, id desc`; a row `score NULL, id 1` sorts after the cursor but is dropped | `lt v` also admits NULL cells (`< v OR IS NULL`) | not executed | RangeFilter.AsWrittenAfterDropsNullRow | RangeFilter.CorrectedFilterIsLexOrder |
| src/orm-connectors/knex/custom-pagination.js:238-250 | removeNodesFromBeginning takes `limit(last)` on the query in its original order and reverses it; no flipped sort reaches it | `[A, B, C, D]` with 3 gives `[C, B, A]`; the documented result is `[B, C, D]` | the last `last` rows in display order | not executed | Window.RemoveNodesFromBeginningExample | Window.RemoveNodesFromBeginning |
| src/orm-connectors/knex/custom-pagination.js:47-51 | edge cursors are the joined fields without the base-64 wrap that getDataFromCursor removes | a row whose only combined cell is 1 gets cursor "1", which base-64 decoding rejects | base-64 encode the joined fields, as `encode` (line 9) is defined for | not executed | CursorCodec.CursorAsWrittenIsRejected | CursorCodec.GetDataFromCursorOf |
