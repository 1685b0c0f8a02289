/**
 * The connection builder of src/builder/index.js over the knex connector:
 * order the table, narrow it by the `after` and `before` cursors, cut a
 * page with the first+1 / last+1 over-fetch, and assemble the Relay
 * connection (edges, page info, total count).
 *
 * The database is a sequence of rows: ORDER BY yields SortRows, a filter
 * yields Keep, `limit` yields Limit and `count` the length.
 */
module PaginationBuilder {
  import opened Wrappers
  import opened Values
  import opened ColumnSet
  import opened RowOrder
  import opened CursorCodec
  import opened RangeFilter
  import opened Window

  datatype PageError =
    | MalformedCursor(cause: DecodeError)   // base-64, percent or JSON decoding threw
    | MissingAggregatePredicate            // isAggregateFn was not supplied but a cursor was
    | NegativeFirst                        // "`first` argument must not be less than 0"
    | NegativeLast                         // "`last` argument must not be less than 0"

  /** A cursor argument counts only when it is a non-empty string. */
  predicate Present(c: Option<string>) {
    c.Some? && c.value != ""
  }

  /** `first` and `last` count only when given and non-zero. */
  predicate Active(n: Option<int>) {
    n.Some? && n.value != 0
  }

  /**
   * removeNodesBeforeAndIncluding (side Before) and
   * removeNodesAfterAndIncluding (side After), with the corrected filter.
   */
  function RemoveNodesSpec(side: Side, rows: seq<Row>, cursor: string, idColumn: seq<Column>, orderColumn: seq<Column>,
                           ascOrDesc: seq<Direction>, isAggregateFn: Option<Column -> bool>): Result<seq<Row>, PageError>
    requires |ascOrDesc| == |orderColumn| >= 1
  {
    match GetDataFromCursor(cursor)
    case Failure(e) => Failure(MalformedCursor(e))
    case Success(vs) =>
      if isAggregateFn.None? then Failure(MissingAggregatePredicate)
      else
        var cols := CombinedColumns(orderColumn, idColumn);
        var dirs := CombinedDirections(orderColumn, idColumn, ascOrDesc);
        Success(Keep(rows, FilterTerms(Corrected, side, cols, dirs, vs)))
  }

  method RemoveNodes(side: Side, rows: seq<Row>, cursor: string, idColumn: seq<Column>, orderColumn: seq<Column>,
                     ascOrDesc: seq<Direction>, isAggregateFn: Option<Column -> bool>)
    returns (r: Result<seq<Row>, PageError>)
    requires |ascOrDesc| == |orderColumn| >= 1
    ensures r == RemoveNodesSpec(side, rows, cursor, idColumn, orderColumn, ascOrDesc, isAggregateFn)
  {
    var cursorValues := GetDataFromCursor(cursor);
    if cursorValues.Failure? {
      return Failure(MalformedCursor(cursorValues.error));
    }
    if isAggregateFn.None? {
      return Failure(MissingAggregatePredicate);
    }
    var q := ExecuteFilterQuery(Corrected, side, idColumn, orderColumn, ascOrDesc, cursorValues.value, isAggregateFn.value);
    r := Success(Keep(rows, q.or));
  }

  /** The rows left after the `after` cursor and then the `before` cursor are applied. */
  function Narrowed(rows: seq<Row>, before: Option<string>, after: Option<string>, idColumn: seq<Column>,
                    orderColumn: seq<Column>, ascOrDesc: seq<Direction>, isAggregateFn: Option<Column -> bool>): Result<seq<Row>, PageError>
    requires |ascOrDesc| == |orderColumn| >= 1
  {
    var afterStep :=
      if Present(after) then RemoveNodesSpec(Before, rows, after.value, idColumn, orderColumn, ascOrDesc, isAggregateFn)
      else Success(rows);
    match afterStep
    case Failure(e) => Failure(e)
    case Success(w) =>
      if Present(before) then RemoveNodesSpec(After, w, before.value, idColumn, orderColumn, ascOrDesc, isAggregateFn)
      else Success(w)
  }

  /** applyCursorsToNodes: each present cursor narrows the accessor in turn. */
  method ApplyCursorsToNodes(allNodes: seq<Row>, before: Option<string>, after: Option<string>, idColumn: seq<Column>,
                             orderColumn: seq<Column>, ascOrDesc: seq<Direction>, isAggregateFn: Option<Column -> bool>)
    returns (r: Result<seq<Row>, PageError>)
    requires |ascOrDesc| == |orderColumn| >= 1
    ensures r == Narrowed(allNodes, before, after, idColumn, orderColumn, ascOrDesc, isAggregateFn)
  {
    var nodes := allNodes;
    if Present(after) {
      var step := RemoveNodes(Before, nodes, after.value, idColumn, orderColumn, ascOrDesc, isAggregateFn);
      if step.Failure? {
        return Failure(step.error);
      }
      nodes := step.value;
    }
    if Present(before) {
      var step := RemoveNodes(After, nodes, before.value, idColumn, orderColumn, ascOrDesc, isAggregateFn);
      if step.Failure? {
        return Failure(step.error);
      }
      nodes := step.value;
    }
    r := Success(nodes);
  }

  datatype Page = Page(nodes: seq<Row>, hasNextPage: bool, hasPreviousPage: bool)

  /** A negative `first` or `last` is refused; 0 and absence are not. */
  predicate NotNegative(n: Option<int>) {
    !(Active(n) && n.value < 0)
  }

  /**
   * The rows of the page: the last `last` rows of the window when `last` is
   * active, else its first `first` rows when `first` is, else none.
   */
  function PageNodes(window: seq<Row>, first: Option<int>, last: Option<int>): seq<Row>
    requires NotNegative(first) && NotNegative(last)
  {
    var n := |window|;
    if Active(last) then window[n - Min(last.value, n)..]
    else if Active(first) then window[..Min(first.value, n)]
    else []
  }

  /** A next page exists when `before` was given or rows lie past the first `first`. */
  predicate HasNext(window: seq<Row>, before: Option<string>, first: Option<int>) {
    Present(before) || (Active(first) && |window| > first.value)
  }

  /** A previous page exists when `after` was given or rows lie before the last `last`. */
  predicate HasPrevious(window: seq<Row>, after: Option<string>, last: Option<int>) {
    Present(after) || (Active(last) && |window| > last.value)
  }

  /** The page cut from a narrowed window. */
  function PageOf(window: seq<Row>, before: Option<string>, after: Option<string>, first: Option<int>, last: Option<int>): Result<Page, PageError> {
    if !NotNegative(first) then Failure(NegativeFirst)
    else if !NotNegative(last) then Failure(NegativeLast)
    else Success(Page(PageNodes(window, first, last), HasNext(window, before, first), HasPrevious(window, after, last)))
  }

  /** The page nodesToReturn yields for a table. */
  function NodesSpec(table: seq<Row>, before: Option<string>, after: Option<string>, first: Option<int>, last: Option<int>,
                     idColumn: seq<Column>, orderColumn: seq<Column>, ascOrDesc: seq<Direction>,
                     isAggregateFn: Option<Column -> bool>): Result<Page, PageError>
    requires |ascOrDesc| == |orderColumn| >= 1
  {
    var ordered := SortRows(table, CombinedColumns(orderColumn, idColumn), CombinedDirections(orderColumn, idColumn, ascOrDesc));
    match Narrowed(ordered, before, after, idColumn, orderColumn, ascOrDesc, isAggregateFn)
    case Failure(e) => Failure(e)
    case Success(window) => PageOf(window, before, after, first, last)
  }

  /**
   * The second half of nodesToReturn: seed the page flags from the cursors,
   * then over-fetch one row for `first` and for `last` to learn whether
   * more rows lie beyond the page.
   */
  method CutPage(nodesAccessor: seq<Row>, before: Option<string>, after: Option<string>, first: Option<int>, last: Option<int>)
    returns (r: Result<Page, PageError>)
    ensures r == PageOf(nodesAccessor, before, after, first, last)
  {
    var hasNextPage := Present(before);
    var hasPreviousPage := Present(after);
    var nodes: seq<Row> := [];
    if Active(first) {
      if first.value < 0 {
        return Failure(NegativeFirst);
      }
      var more;
      nodes, more := FetchFirst(nodesAccessor, first.value);
      hasNextPage := hasNextPage || more;
    }
    if Active(last) {
      if last.value < 0 {
        return Failure(NegativeLast);
      }
      var more;
      nodes, more := FetchLast(nodesAccessor, last.value);
      hasPreviousPage := hasPreviousPage || more;
    }
    r := Success(Page(nodes, hasNextPage, hasPreviousPage));
  }

  /** nodesToReturn: order the table, narrow it by the cursors, cut the page. */
  method NodesToReturn(table: seq<Row>, before: Option<string>, after: Option<string>, first: Option<int>, last: Option<int>,
                       idColumn: seq<Column>, orderColumn: seq<Column>, ascOrDesc: seq<Direction>,
                       isAggregateFn: Option<Column -> bool>)
    returns (r: Result<Page, PageError>)
    requires |ascOrDesc| == |orderColumn| >= 1
    ensures r == NodesSpec(table, before, after, first, last, idColumn, orderColumn, ascOrDesc, isAggregateFn)
  {
    var clauses := OrderNodesBy(idColumn, orderColumn, ascOrDesc);
    var orderedNodes := OrderedRows(table, clauses);
    assert orderedNodes == SortRows(table, CombinedColumns(orderColumn, idColumn), CombinedDirections(orderColumn, idColumn, ascOrDesc));
    var narrowed := ApplyCursorsToNodes(orderedNodes, before, after, idColumn, orderColumn, ascOrDesc, isAggregateFn);
    if narrowed.Failure? {
      return Failure(narrowed.error);
    }
    r := CutPage(narrowed.value, before, after, first, last);
  }
}
