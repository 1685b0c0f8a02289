/**
 * The connection assembly of apolloCursorPaginationBuilder: resolve the
 * sort, cut the page, count the table, map the nodes and wrap them in
 * edges with their cursors and the page info.
 */
module ConnectionBuilder {
  import opened Wrappers
  import opened Values
  import opened ColumnSet
  import opened CursorCodec
  import opened PaginationBuilder

  /** `totalCount`: 0 without getTotal, `false` when skipped, else the table's size. */
  datatype TotalCount = Count(n: nat) | Skipped

  datatype PageInfo = PageInfo(hasPreviousPage: bool, hasNextPage: bool, startCursor: Option<string>, endCursor: Option<string>)

  datatype Connection = Connection(pageInfo: PageInfo, totalCount: TotalCount, edges: seq<Edge>)

  /** The arguments of a request; absent orderBy and orderDirection default to "id" and "asc". */
  datatype PageArgs = PageArgs(before: Option<string>, after: Option<string>, first: Option<int>, last: Option<int>,
                               orderBy: Option<seq<Column>>, orderDirection: Option<seq<Direction>>)

  /**
   * The options of a request: the tiebreaker columns, the deprecated
   * orderColumn/ascOrDesc pair, and the switches (skipTotalCount defaults
   * to false, getTotal to true).
   */
  datatype Options = Options(idColumn: seq<Column>, legacyOrder: Option<(seq<Column>, seq<Direction>)>,
                             isAggregateFn: Option<Column -> bool>, skipTotalCount: bool,
                             modifyNodeFn: Option<Row -> Row>, getTotal: bool)

  /** The sort the request asks for: the legacy pair when given, else orderBy/orderDirection. */
  function SortOrder(args: PageArgs, opts: Options): (r: (seq<Column>, seq<Direction>))
    ensures opts.legacyOrder.Some? ==> r == opts.legacyOrder.value
    ensures opts.legacyOrder.None? && args.orderBy.None? ==> r.0 == ["id"]
    ensures opts.legacyOrder.None? && args.orderDirection.None? ==> r.1 == [Asc]
    ensures opts.legacyOrder.None? && args.orderBy.Some? ==> r.0 == args.orderBy.value
    ensures opts.legacyOrder.None? && args.orderDirection.Some? ==> r.1 == args.orderDirection.value
  {
    if opts.legacyOrder.Some? then opts.legacyOrder.value
    else
      (if args.orderBy.Some? then args.orderBy.value else ["id"],
       if args.orderDirection.Some? then args.orderDirection.value else [Asc])
  }

  predicate ValidOrder(args: PageArgs, opts: Options) {
    var (orderColumn, ascOrDesc) := SortOrder(args, opts);
    |ascOrDesc| == |orderColumn| >= 1
  }

  function TotalCountOf(table: seq<Row>, opts: Options): (r: TotalCount)
    ensures !opts.getTotal ==> r == Count(0)
    ensures r.Skipped? <==> opts.getTotal && opts.skipTotalCount
    ensures opts.getTotal && !opts.skipTotalCount ==> r == Count(|table|)
  {
    if !opts.getTotal then Count(0)
    else if opts.skipTotalCount then Skipped
    else Count(|table|)
  }

  function ModifyNodes(nodes: seq<Row>, modifyNodeFn: Option<Row -> Row>): seq<Row> {
    if modifyNodeFn.None? then nodes
    else seq(|nodes|, i requires 0 <= i < |nodes| => modifyNodeFn.value(nodes[i]))
  }

  function StartCursor(edges: seq<Edge>): Option<string> {
    if |edges| == 0 then None else Some(edges[0].cursor)
  }

  function EndCursor(edges: seq<Edge>): Option<string> {
    if |edges| == 0 then None else Some(edges[|edges| - 1].cursor)
  }

  /** The connection built around a page cut from the table. */
  function Assemble(table: seq<Row>, page: Page, cols: seq<Column>, opts: Options): Connection {
    var edges := EdgesOf(ModifyNodes(page.nodes, opts.modifyNodeFn), cols);
    Connection(
      PageInfo(page.hasPreviousPage, page.hasNextPage, StartCursor(edges), EndCursor(edges)),
      TotalCountOf(table, opts),
      edges)
  }

  /** The connection a request yields. */
  function ConnectionSpec(table: seq<Row>, args: PageArgs, opts: Options): Result<Connection, PageError>
    requires ValidOrder(args, opts)
  {
    var order := SortOrder(args, opts);
    match NodesSpec(table, args.before, args.after, args.first, args.last, opts.idColumn, order.0, order.1, opts.isAggregateFn)
    case Failure(e) => Failure(e)
    case Success(page) => Success(Assemble(table, page, CombinedColumns(order.0, opts.idColumn), opts))
  }

  /**
   * The assembly steps of apolloCursorPaginationBuilder: count, map the
   * nodes, build the edges and read the first and last cursors off them.
   */
  method AssembleConnection(table: seq<Row>, page: Page, cols: seq<Column>, opts: Options) returns (c: Connection)
    ensures c == Assemble(table, page, cols, opts)
  {
    var totalCount := Count(0);
    if opts.getTotal {
      totalCount := if !opts.skipTotalCount then Count(|table|) else Skipped;
    }
    var nodes := page.nodes;
    if opts.modifyNodeFn.Some? {
      nodes := ModifyNodes(nodes, opts.modifyNodeFn);
    }
    assert totalCount == TotalCountOf(table, opts);
    assert nodes == ModifyNodes(page.nodes, opts.modifyNodeFn);
    var edges := ConvertNodesToEdges(nodes, cols);
    var startCursor := if |edges| > 0 then Some(edges[0].cursor) else None;
    var endCursor := if |edges| > 0 then Some(edges[|edges| - 1].cursor) else None;
    assert startCursor == StartCursor(edges) && endCursor == EndCursor(edges);
    c := Connection(PageInfo(page.hasPreviousPage, page.hasNextPage, startCursor, endCursor), totalCount, edges);
  }

  /** apolloCursorPaginationBuilder's paginate: resolve the sort, cut the page, assemble the connection. */
  method Paginate(table: seq<Row>, args: PageArgs, opts: Options) returns (r: Result<Connection, PageError>)
    requires ValidOrder(args, opts)
    ensures r == ConnectionSpec(table, args, opts)
  {
    var orderColumn, ascOrDesc;
    if opts.legacyOrder.Some? {
      orderColumn, ascOrDesc := opts.legacyOrder.value.0, opts.legacyOrder.value.1;
    } else {
      orderColumn := if args.orderBy.Some? then args.orderBy.value else ["id"];
      ascOrDesc := if args.orderDirection.Some? then args.orderDirection.value else [Asc];
    }
    assert (orderColumn, ascOrDesc) == SortOrder(args, opts);
    var page := NodesToReturn(table, args.before, args.after, args.first, args.last, opts.idColumn, orderColumn, ascOrDesc, opts.isAggregateFn);
    if page.Failure? {
      return Failure(page.error);
    }
    var cols, _ := CombineOrderColumnAndAscOrDesc(orderColumn, opts.idColumn, ascOrDesc);
    var connection := AssembleConnection(table, page.value, cols, opts);
    r := Success(connection);
  }
}
