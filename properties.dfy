/**
 * What the pieces promise together: on a table whose combined columns key
 * its rows, each cursor addresses one row of the sorted table, and the
 * pages of a forward or a backward walk line up without gap or overlap.
 */
module PaginationProperties {
  import opened Wrappers
  import opened Values
  import opened ColumnSet
  import opened RowOrder
  import opened CursorCodec
  import opened RangeFilter
  import opened Window
  import opened PaginationBuilder
  import opened ConnectionBuilder

  /**
   * The columns name each row: no order or id column repeats, and no two
   * rows agree on all the combined columns (the id tiebreaker sees to that).
   */
  predicate Keyed(table: seq<Row>, idColumn: seq<Column>, orderColumn: seq<Column>, ascOrDesc: seq<Direction>) {
    && |ascOrDesc| == |orderColumn| >= 1
    && Distinct(orderColumn) && Distinct(idColumn)
    && KeysDistinct(table, CombinedColumns(orderColumn, idColumn))
  }

  /** The table as the database orders it. */
  function Sorted(table: seq<Row>, idColumn: seq<Column>, orderColumn: seq<Column>, ascOrDesc: seq<Direction>): seq<Row>
    requires |ascOrDesc| == |orderColumn| >= 1
  {
    SortRows(table, CombinedColumns(orderColumn, idColumn), CombinedDirections(orderColumn, idColumn, ascOrDesc))
  }

  /** Every row comes strictly before every later one. */
  predicate Increasing(w: seq<Row>, cols: seq<Column>, dirs: seq<Direction>)
    requires |cols| == |dirs|
  {
    forall i, j :: 0 <= i < j < |w| ==> RowCompare(w[i], w[j], cols, dirs) == Less
  }

  lemma SortedIncreasing(table: seq<Row>, idColumn: seq<Column>, orderColumn: seq<Column>, ascOrDesc: seq<Direction>)
    requires Keyed(table, idColumn, orderColumn, ascOrDesc)
    ensures Increasing(Sorted(table, idColumn, orderColumn, ascOrDesc),
                       CombinedColumns(orderColumn, idColumn), CombinedDirections(orderColumn, idColumn, ascOrDesc))
  {
    var cols, dirs := CombinedColumns(orderColumn, idColumn), CombinedDirections(orderColumn, idColumn, ascOrDesc);
    CombinedColumnsSpec(orderColumn, idColumn, ascOrDesc);
    var s := Sorted(table, idColumn, orderColumn, ascOrDesc);
    SortRowsSpec(table, cols, dirs);
    forall i, j | 0 <= i < j < |s| ensures RowValues(s[i], cols) != RowValues(s[j], cols) {
      KeysDistinctMultiset(table, s, cols, i, j);
    }
    OrderedStrictly(s, cols, dirs);
  }

  /** A filter that admits exactly the rows at positions lo to hi keeps that slice. */
  lemma {:induction false} KeepSlice(rows: seq<Row>, terms: seq<Term>, lo: nat, hi: nat)
    requires lo <= hi <= |rows|
    requires forall i :: 0 <= i < |rows| ==> (FilterHolds(rows[i], terms) <==> lo <= i < hi)
    ensures Keep(rows, terms) == rows[lo..hi]
    decreases |rows|
  {
    if |rows| > 0 {
      AdmitsShifted(rows, terms, lo, hi);
      KeepSlice(rows[1..], terms, Down(lo), Down(hi));
      KeepFront(rows, terms);
      SliceFront(rows, lo, hi);
    }
  }

  /** One less, stopping at zero. */
  function Down(n: nat): nat {
    if n > 0 then n - 1 else 0
  }

  /** Dropping the first row shifts the admitted positions down by one. */
  lemma AdmitsShifted(rows: seq<Row>, terms: seq<Term>, lo: nat, hi: nat)
    requires lo <= hi <= |rows| && |rows| > 0
    requires forall i :: 0 <= i < |rows| ==> (FilterHolds(rows[i], terms) <==> lo <= i < hi)
    ensures Down(lo) <= Down(hi) <= |rows[1..]|
    ensures forall i :: 0 <= i < |rows[1..]| ==> (FilterHolds(rows[1..][i], terms) <==> Down(lo) <= i < Down(hi))
    ensures FilterHolds(rows[0], terms) <==> lo == 0 < hi
  {
    forall i | 0 <= i < |rows[1..]| ensures FilterHolds(rows[1..][i], terms) <==> Down(lo) <= i < Down(hi) {
      assert rows[1..][i] == rows[i + 1];
    }
  }

  /** Keep on a non-empty sequence, one step unfolded. */
  lemma KeepFront(rows: seq<Row>, terms: seq<Term>)
    requires |rows| > 0
    ensures Keep(rows, terms) == if FilterHolds(rows[0], terms) then [rows[0]] + Keep(rows[1..], terms) else Keep(rows[1..], terms)
  {
  }

  /** A slice of a non-empty sequence, read from its first element and the rest. */
  lemma SliceFront<T>(s: seq<T>, lo: nat, hi: nat)
    requires lo <= hi <= |s| && |s| > 0
    ensures Down(lo) <= Down(hi) <= |s[1..]|
    ensures s[lo..hi] == if lo == 0 < hi then [s[0]] + s[1..][Down(lo)..Down(hi)] else s[1..][Down(lo)..Down(hi)]
  {
    if lo == 0 < hi {
      assert s[lo..hi] == [s[0]] + s[1..][Down(lo)..Down(hi)];
    } else {
      assert s[lo..hi] == s[1..][Down(lo)..Down(hi)];
    }
  }

  /** On rows in strictly increasing order, the filter from row j's cells admits row i exactly when i lies past j. */
  lemma FilterAdmitsRow(side: Side, w: seq<Row>, j: nat, i: nat, cols: seq<Column>, dirs: seq<Direction>)
    requires |cols| == |dirs| && Distinct(cols) && Increasing(w, cols, dirs) && j < |w| && i < |w|
    ensures FilterHolds(w[i], FilterTerms(Corrected, side, cols, dirs, RowValues(w[j], cols)))
        <==> (if side == Before then j < i else i < j)
  {
    var vs := RowValues(w[j], cols);
    assert Pad(vs, |cols|) == vs;
    CorrectedFilterIsLexOrder(side, cols, dirs, vs, w[i]);
    if j < i {
      assert RowCompare(w[j], w[i], cols, dirs) == Less;
      LexCompareFlip(vs, RowValues(w[i], cols), dirs);
    } else if i < j {
      assert RowCompare(w[i], w[j], cols, dirs) == Less;
    }
  }

  /**
   * On rows in strictly increasing order, the corrected filter built from
   * the cells of row j admits the rows after it (side Before) or the rows
   * before it (side After).
   */
  lemma FilterAdmitsSide(side: Side, w: seq<Row>, j: nat, cols: seq<Column>, dirs: seq<Direction>)
    requires |cols| == |dirs| && Distinct(cols) && Increasing(w, cols, dirs) && j < |w|
    ensures var terms := FilterTerms(Corrected, side, cols, dirs, RowValues(w[j], cols));
      Keep(w, terms) == if side == Before then w[j + 1..] else w[..j]
  {
    var lo, hi := if side == Before then j + 1 else 0, if side == Before then |w| else j;
    FilterAdmitsRange(side, w, j, cols, dirs, lo, hi);
    KeepSlice(w, FilterTerms(Corrected, side, cols, dirs, RowValues(w[j], cols)), lo, hi);
  }

  /** The positions the corrected filter from row j admits form the range lo to hi. */
  lemma FilterAdmitsRange(side: Side, w: seq<Row>, j: nat, cols: seq<Column>, dirs: seq<Direction>, lo: nat, hi: nat)
    requires |cols| == |dirs| && Distinct(cols) && Increasing(w, cols, dirs) && j < |w|
    requires lo == (if side == Before then j + 1 else 0) && hi == (if side == Before then |w| else j)
    ensures forall i :: 0 <= i < |w| ==>
      (FilterHolds(w[i], FilterTerms(Corrected, side, cols, dirs, RowValues(w[j], cols))) <==> lo <= i < hi)
  {
    forall i | 0 <= i < |w|
      ensures FilterHolds(w[i], FilterTerms(Corrected, side, cols, dirs, RowValues(w[j], cols))) <==> lo <= i < hi
    {
      FilterAdmitsRow(side, w, j, i, cols, dirs);
    }
  }

  /**
   * On rows in strictly increasing order, a cursor holding the cells of
   * row j removes the rows up to and including it (`after`) or from it on
   * (`before`).
   */
  lemma RemoveThroughRow(side: Side, w: seq<Row>, j: nat, cursor: string, idColumn: seq<Column>, orderColumn: seq<Column>,
                         ascOrDesc: seq<Direction>, isAggregateFn: Option<Column -> bool>)
    requires |ascOrDesc| == |orderColumn| >= 1 && Distinct(orderColumn) && Distinct(idColumn) && isAggregateFn.Some?
    requires Increasing(w, CombinedColumns(orderColumn, idColumn), CombinedDirections(orderColumn, idColumn, ascOrDesc))
    requires j < |w|
    requires GetDataFromCursor(cursor) == Success(RowValues(w[j], CombinedColumns(orderColumn, idColumn)))
    ensures RemoveNodesSpec(side, w, cursor, idColumn, orderColumn, ascOrDesc, isAggregateFn)
         == Success(if side == Before then w[j + 1..] else w[..j])
  {
    CombinedColumnsSpec(orderColumn, idColumn, ascOrDesc);
    FilterAdmitsSide(side, w, j, CombinedColumns(orderColumn, idColumn), CombinedDirections(orderColumn, idColumn, ascOrDesc));
  }

  /**
   * A lone `after` (side Before) or `before` (side After) cursor holding the
   * cells of row j of the sorted table narrows it to the rows after, or
   * before, that row.
   */
  lemma NarrowedAtRow(side: Side, table: seq<Row>, idColumn: seq<Column>, orderColumn: seq<Column>, ascOrDesc: seq<Direction>,
                      isAggregateFn: Option<Column -> bool>, j: nat, cursor: string)
    requires Keyed(table, idColumn, orderColumn, ascOrDesc) && isAggregateFn.Some?
    requires j < |Sorted(table, idColumn, orderColumn, ascOrDesc)| && cursor != ""
    requires GetDataFromCursor(cursor) == Success(RowValues(Sorted(table, idColumn, orderColumn, ascOrDesc)[j], CombinedColumns(orderColumn, idColumn)))
    ensures var s := Sorted(table, idColumn, orderColumn, ascOrDesc);
      if side == Before then
        Narrowed(s, None, Some(cursor), idColumn, orderColumn, ascOrDesc, isAggregateFn) == Success(s[j + 1..])
      else
        Narrowed(s, Some(cursor), None, idColumn, orderColumn, ascOrDesc, isAggregateFn) == Success(s[..j])
  {
    var s := Sorted(table, idColumn, orderColumn, ascOrDesc);
    SortedIncreasing(table, idColumn, orderColumn, ascOrDesc);
    RemoveThroughRow(side, s, j, cursor, idColumn, orderColumn, ascOrDesc, isAggregateFn);
  }

  /** `first: k` alone: the first k rows, with a next page when more remain. */
  lemma FirstPage(table: seq<Row>, idColumn: seq<Column>, orderColumn: seq<Column>, ascOrDesc: seq<Direction>,
                  isAggregateFn: Option<Column -> bool>, k: nat)
    requires |ascOrDesc| == |orderColumn| >= 1 && k >= 1
    ensures var s := Sorted(table, idColumn, orderColumn, ascOrDesc);
      NodesSpec(table, None, None, Some(k), None, idColumn, orderColumn, ascOrDesc, isAggregateFn)
        == Success(Page(s[..Min(k, |s|)], |s| > k, false))
  {
  }

  /** `last: k` alone: the last k rows in display order, with a previous page when more precede them. */
  lemma LastPage(table: seq<Row>, idColumn: seq<Column>, orderColumn: seq<Column>, ascOrDesc: seq<Direction>,
                 isAggregateFn: Option<Column -> bool>, k: nat)
    requires |ascOrDesc| == |orderColumn| >= 1 && k >= 1
    ensures var s := Sorted(table, idColumn, orderColumn, ascOrDesc);
      NodesSpec(table, None, None, None, Some(k), idColumn, orderColumn, ascOrDesc, isAggregateFn)
        == Success(Page(s[|s| - Min(k, |s|)..], false, |s| > k))
  {
  }

  /** The last row of a non-empty first page is row Min(k, |s|) - 1 of the sorted table. */
  lemma FirstPageLast(table: seq<Row>, idColumn: seq<Column>, orderColumn: seq<Column>, ascOrDesc: seq<Direction>,
                      isAggregateFn: Option<Column -> bool>, k: nat)
    requires |ascOrDesc| == |orderColumn| >= 1 && k >= 1
    ensures var s := Sorted(table, idColumn, orderColumn, ascOrDesc);
      var first := NodesSpec(table, None, None, Some(k), None, idColumn, orderColumn, ascOrDesc, isAggregateFn);
      && first.Success? && first.value.nodes == s[..Min(k, |s|)]
      && (|first.value.nodes| > 0 ==> |s| >= 1 && first.value.nodes[|first.value.nodes| - 1] == s[Min(k, |s|) - 1])
  {
    var s := Sorted(table, idColumn, orderColumn, ascOrDesc);
    FirstPage(table, idColumn, orderColumn, ascOrDesc, isAggregateFn, k);
    PrefixLast(s, Min(k, |s|));
  }

  /** The first row of a non-empty last page is row |s| - Min(k, |s|) of the sorted table. */
  lemma LastPageFirst(table: seq<Row>, idColumn: seq<Column>, orderColumn: seq<Column>, ascOrDesc: seq<Direction>,
                      isAggregateFn: Option<Column -> bool>, k: nat)
    requires |ascOrDesc| == |orderColumn| >= 1 && k >= 1
    ensures var s := Sorted(table, idColumn, orderColumn, ascOrDesc);
      var last := NodesSpec(table, None, None, None, Some(k), idColumn, orderColumn, ascOrDesc, isAggregateFn);
      && last.Success? && last.value.nodes == s[|s| - Min(k, |s|)..]
      && (|last.value.nodes| > 0 ==> |s| >= 1 && last.value.nodes[0] == s[|s| - Min(k, |s|)])
  {
    var s := Sorted(table, idColumn, orderColumn, ascOrDesc);
    LastPage(table, idColumn, orderColumn, ascOrDesc, isAggregateFn, k);
    SuffixFirst(s, |s| - Min(k, |s|));
  }

  lemma PrefixLast<T>(s: seq<T>, m: nat)
    requires m <= |s|
    ensures |s[..m]| == m && (m > 0 ==> s[..m][m - 1] == s[m - 1])
  {
  }

  lemma SuffixFirst<T>(s: seq<T>, j: nat)
    requires j <= |s|
    ensures |s[j..]| == |s| - j && (j < |s| ==> s[j..][0] == s[j])
  {
  }

  /** `after` a cursor holding the cells of row j, with `first: k`: the k rows following row j. */
  lemma PageAfterRow(table: seq<Row>, idColumn: seq<Column>, orderColumn: seq<Column>, ascOrDesc: seq<Direction>,
                     isAggregateFn: Option<Column -> bool>, j: nat, cursor: string, k: nat)
    requires Keyed(table, idColumn, orderColumn, ascOrDesc) && isAggregateFn.Some? && k >= 1
    requires j < |Sorted(table, idColumn, orderColumn, ascOrDesc)| && cursor != ""
    requires GetDataFromCursor(cursor) == Success(RowValues(Sorted(table, idColumn, orderColumn, ascOrDesc)[j], CombinedColumns(orderColumn, idColumn)))
    ensures var s := Sorted(table, idColumn, orderColumn, ascOrDesc);
      var rest := s[j + 1..];
      NodesSpec(table, None, Some(cursor), Some(k), None, idColumn, orderColumn, ascOrDesc, isAggregateFn)
        == Success(Page(rest[..Min(k, |rest|)], |rest| > k, true))
  {
    var s := Sorted(table, idColumn, orderColumn, ascOrDesc);
    var rest := s[j + 1..];
    NarrowedAtRow(Before, table, idColumn, orderColumn, ascOrDesc, isAggregateFn, j, cursor);
    AfterWindowPage(table, idColumn, orderColumn, ascOrDesc, isAggregateFn, cursor, k, rest);
  }

  /** `before` a cursor holding the cells of row j, with `last: k`: the k rows preceding row j, in display order. */
  lemma PageBeforeRow(table: seq<Row>, idColumn: seq<Column>, orderColumn: seq<Column>, ascOrDesc: seq<Direction>,
                      isAggregateFn: Option<Column -> bool>, j: nat, cursor: string, k: nat)
    requires Keyed(table, idColumn, orderColumn, ascOrDesc) && isAggregateFn.Some? && k >= 1
    requires j < |Sorted(table, idColumn, orderColumn, ascOrDesc)| && cursor != ""
    requires GetDataFromCursor(cursor) == Success(RowValues(Sorted(table, idColumn, orderColumn, ascOrDesc)[j], CombinedColumns(orderColumn, idColumn)))
    ensures var s := Sorted(table, idColumn, orderColumn, ascOrDesc);
      NodesSpec(table, Some(cursor), None, None, Some(k), idColumn, orderColumn, ascOrDesc, isAggregateFn)
        == Success(Page(s[j - Min(k, j)..j], true, j > k))
  {
    NarrowedAtRow(After, table, idColumn, orderColumn, ascOrDesc, isAggregateFn, j, cursor);
    BeforeWindowPage(table, idColumn, orderColumn, ascOrDesc, isAggregateFn, cursor, k, j);
  }

  /** The last k elements of the first j are the elements from j - Min(k, j) up to j. */
  lemma TailOfPrefix<T>(s: seq<T>, j: nat, k: nat)
    requires j <= |s|
    ensures var prior := s[..j]; |prior| == j && prior[|prior| - Min(k, |prior|)..] == s[j - Min(k, j)..j]
  {
  }

  /** Once the cursors have narrowed the sorted table to a window, the page is cut from that window. */
  lemma NodesOfWindow(table: seq<Row>, before: Option<string>, after: Option<string>, first: Option<int>, last: Option<int>,
                      idColumn: seq<Column>, orderColumn: seq<Column>, ascOrDesc: seq<Direction>,
                      isAggregateFn: Option<Column -> bool>, window: seq<Row>)
    requires |ascOrDesc| == |orderColumn| >= 1
    requires Narrowed(Sorted(table, idColumn, orderColumn, ascOrDesc), before, after, idColumn, orderColumn, ascOrDesc, isAggregateFn) == Success(window)
    ensures NodesSpec(table, before, after, first, last, idColumn, orderColumn, ascOrDesc, isAggregateFn) == PageOf(window, before, after, first, last)
  {
  }

  /** With `after` and `first: k`, the page is the first k rows of the window the cursor leaves. */
  lemma AfterWindowPage(table: seq<Row>, idColumn: seq<Column>, orderColumn: seq<Column>, ascOrDesc: seq<Direction>,
                        isAggregateFn: Option<Column -> bool>, cursor: string, k: nat, rest: seq<Row>)
    requires |ascOrDesc| == |orderColumn| >= 1 && cursor != "" && k >= 1
    requires Narrowed(Sorted(table, idColumn, orderColumn, ascOrDesc), None, Some(cursor), idColumn, orderColumn, ascOrDesc, isAggregateFn) == Success(rest)
    ensures NodesSpec(table, None, Some(cursor), Some(k), None, idColumn, orderColumn, ascOrDesc, isAggregateFn)
         == Success(Page(rest[..Min(k, |rest|)], |rest| > k, true))
  {
    NodesOfWindow(table, None, Some(cursor), Some(k), None, idColumn, orderColumn, ascOrDesc, isAggregateFn, rest);
    FirstWindowPage(rest, cursor, k);
  }

  /** The page `after` a cursor, with `first: k`, cut from what follows it. */
  lemma FirstWindowPage(rest: seq<Row>, cursor: string, k: nat)
    requires cursor != "" && k >= 1
    ensures PageOf(rest, None, Some(cursor), Some(k), None) == Success(Page(rest[..Min(k, |rest|)], |rest| > k, true))
  {
  }

  /** The page `before` a cursor, with `last: k`, cut from the j rows that precede it. */
  lemma LastWindowPage(s: seq<Row>, j: nat, cursor: string, k: nat)
    requires cursor != "" && k >= 1 && j <= |s|
    ensures PageOf(s[..j], Some(cursor), None, None, Some(k)) == Success(Page(s[j - Min(k, j)..j], true, j > k))
  {
    TailOfPrefix(s, j, k);
  }

  /** With `before` and `last: k`, the page is the last k rows of the window the cursor leaves. */
  lemma BeforeWindowPage(table: seq<Row>, idColumn: seq<Column>, orderColumn: seq<Column>, ascOrDesc: seq<Direction>,
                         isAggregateFn: Option<Column -> bool>, cursor: string, k: nat, j: nat)
    requires |ascOrDesc| == |orderColumn| >= 1 && cursor != "" && k >= 1
    requires var s := Sorted(table, idColumn, orderColumn, ascOrDesc);
      j <= |s| && Narrowed(s, Some(cursor), None, idColumn, orderColumn, ascOrDesc, isAggregateFn) == Success(s[..j])
    ensures var s := Sorted(table, idColumn, orderColumn, ascOrDesc);
      NodesSpec(table, Some(cursor), None, None, Some(k), idColumn, orderColumn, ascOrDesc, isAggregateFn)
        == Success(Page(s[j - Min(k, j)..j], true, j > k))
  {
    var s := Sorted(table, idColumn, orderColumn, ascOrDesc);
    NodesOfWindow(table, Some(cursor), None, None, Some(k), idColumn, orderColumn, ascOrDesc, isAggregateFn, s[..j]);
    LastWindowPage(s, j, cursor, k);
  }

  /** The first k elements, then the first k of the rest, are the first 2k. */
  lemma FirstTwoWindows<T>(s: seq<T>, k: nat)
    ensures var m := Min(k, |s|);
      var rest := s[m..];
      s[..m] + rest[..Min(k, |rest|)] == s[..Min(2 * k, |s|)]
  {
    var m := Min(k, |s|);
    var rest := s[m..];
    assert rest[..Min(k, |rest|)] == s[m..m + Min(k, |rest|)];
    assert s[..m] + s[m..m + Min(k, |rest|)] == s[..m + Min(k, |rest|)];
  }

  /** The last k of what precedes the last k elements, then those, are the last 2k. */
  lemma LastTwoWindows<T>(s: seq<T>, k: nat, j: nat)
    requires j == |s| - Min(k, |s|)
    ensures s[j - Min(k, j)..j] + s[j..] == s[|s| - Min(2 * k, |s|)..]
  {
    assert j - Min(k, j) == |s| - Min(2 * k, |s|);
    assert s[j - Min(k, j)..j] + s[j..] == s[j - Min(k, j)..];
  }

  /** The nodes a connection's edges carry, in order. */
  function EdgeNodes(edges: seq<Edge>): seq<Row> {
    seq(|edges|, i requires 0 <= i < |edges| => edges[i].node)
  }

  lemma EdgeNodesOf(nodes: seq<Row>, cols: seq<Column>)
    ensures EdgeNodes(EdgesOf(nodes, cols)) == nodes
  {
  }

  /**
   * A connection around a page whose nodes are not rewritten shows the
   * page's nodes and flags, and its first and last cursors are non-empty
   * and decode to the cells of the page's first and last nodes.
   */
  lemma AssembledPage(table: seq<Row>, page: Page, cols: seq<Column>, opts: Options)
    requires opts.modifyNodeFn.None? && |cols| >= 1
    ensures var c := Assemble(table, page, cols, opts);
      var n := |page.nodes|;
      && EdgeNodes(c.edges) == page.nodes
      && c.pageInfo.hasNextPage == page.hasNextPage && c.pageInfo.hasPreviousPage == page.hasPreviousPage
      && (n == 0 ==> c.pageInfo.startCursor.None? && c.pageInfo.endCursor.None?)
      && (n > 0 ==> c.pageInfo.startCursor.Some? && c.pageInfo.startCursor.value != ""
                    && GetDataFromCursor(c.pageInfo.startCursor.value) == Success(RowValues(page.nodes[0], cols)))
      && (n > 0 ==> c.pageInfo.endCursor.Some? && c.pageInfo.endCursor.value != ""
                    && GetDataFromCursor(c.pageInfo.endCursor.value) == Success(RowValues(page.nodes[n - 1], cols)))
  {
    var edges := EdgesOf(page.nodes, cols);
    EdgeNodesOf(page.nodes, cols);
    EdgesOfDecode(page.nodes, cols);
    BoundaryCursors(edges, page.nodes, cols);
  }

  /** A connection around a page whose nodes are not rewritten shows the page's nodes and flags. */
  lemma AssembledNodes(table: seq<Row>, page: Page, cols: seq<Column>, opts: Options)
    requires opts.modifyNodeFn.None?
    ensures var c := Assemble(table, page, cols, opts);
      && EdgeNodes(c.edges) == page.nodes
      && c.pageInfo.hasNextPage == page.hasNextPage && c.pageInfo.hasPreviousPage == page.hasPreviousPage
  {
    EdgeNodesOf(page.nodes, cols);
  }

  /** The first and last cursors read off edges whose cursors decode to their nodes' cells. */
  lemma BoundaryCursors(edges: seq<Edge>, nodes: seq<Row>, cols: seq<Column>)
    requires |edges| == |nodes|
    requires forall i :: 0 <= i < |nodes| ==>
      edges[i].cursor != "" && GetDataFromCursor(edges[i].cursor) == Success(RowValues(nodes[i], cols))
    ensures var n := |nodes|;
      && (n == 0 ==> StartCursor(edges).None? && EndCursor(edges).None?)
      && (n > 0 ==> StartCursor(edges).Some? && StartCursor(edges).value != ""
                    && GetDataFromCursor(StartCursor(edges).value) == Success(RowValues(nodes[0], cols)))
      && (n > 0 ==> EndCursor(edges).Some? && EndCursor(edges).value != ""
                    && GetDataFromCursor(EndCursor(edges).value) == Success(RowValues(nodes[n - 1], cols)))
  {
    var n := |nodes|;
    if n > 0 {
      var first, last := edges[0].cursor, edges[n - 1].cursor;
      assert first != "" && GetDataFromCursor(first) == Success(RowValues(nodes[0], cols));
      assert last != "" && GetDataFromCursor(last) == Success(RowValues(nodes[n - 1], cols));
      assert StartCursor(edges) == Some(first) && EndCursor(edges) == Some(last);
    }
  }

  /**
   * Every edge of a connection whose nodes are not rewritten carries a
   * cursor that decodes to its node's cells at the combined columns.
   */
  lemma ConnectionCursorsDecode(table: seq<Row>, args: PageArgs, opts: Options)
    requires ValidOrder(args, opts) && opts.modifyNodeFn.None?
    requires ConnectionSpec(table, args, opts).Success?
    ensures var c := ConnectionSpec(table, args, opts).value;
      var cols := CombinedColumns(SortOrder(args, opts).0, opts.idColumn);
      forall i :: 0 <= i < |c.edges| ==> GetDataFromCursor(c.edges[i].cursor) == Success(RowValues(c.edges[i].node, cols))
  {
    var order := SortOrder(args, opts);
    var page := NodesSpec(table, args.before, args.after, args.first, args.last, opts.idColumn, order.0, order.1, opts.isAggregateFn).value;
    var cols := CombinedColumns(order.0, opts.idColumn);
    CombinedColumnsSpec(order.0, opts.idColumn, order.1);
    EdgesOfDecode(page.nodes, cols);
  }

  /**
   * Walking forward: after a first page of k rows, the page `after` a
   * cursor of its last row (such as the connection's end cursor) holds the
   * next k rows, so the two together are the first 2k rows of the sorted
   * table; the second page has a next page exactly when rows remain.
   */
  lemma ForwardPagination(table: seq<Row>, idColumn: seq<Column>, orderColumn: seq<Column>, ascOrDesc: seq<Direction>,
                          isAggregateFn: Option<Column -> bool>, k: nat, cursor: string)
    requires Keyed(table, idColumn, orderColumn, ascOrDesc) && isAggregateFn.Some? && k >= 1
    requires NodesSpec(table, None, None, Some(k), None, idColumn, orderColumn, ascOrDesc, isAggregateFn).Success?
    requires var first := NodesSpec(table, None, None, Some(k), None, idColumn, orderColumn, ascOrDesc, isAggregateFn).value.nodes;
      && |first| > 0 && cursor != ""
      && GetDataFromCursor(cursor) == Success(RowValues(first[|first| - 1], CombinedColumns(orderColumn, idColumn)))
    ensures var s := Sorted(table, idColumn, orderColumn, ascOrDesc);
      var first := NodesSpec(table, None, None, Some(k), None, idColumn, orderColumn, ascOrDesc, isAggregateFn).value;
      var next := NodesSpec(table, None, Some(cursor), Some(k), None, idColumn, orderColumn, ascOrDesc, isAggregateFn);
      && next.Success?
      && first.nodes + next.value.nodes == s[..Min(2 * k, |s|)]
      && (next.value.hasNextPage <==> |s| > 2 * k)
      && next.value.hasPreviousPage
  {
    var s := Sorted(table, idColumn, orderColumn, ascOrDesc);
    var j := Min(k, |s|) - 1;
    assert j >= 0 && GetDataFromCursor(cursor) == Success(RowValues(s[j], CombinedColumns(orderColumn, idColumn)))
      && NodesSpec(table, None, None, Some(k), None, idColumn, orderColumn, ascOrDesc, isAggregateFn).value.nodes == s[..j + 1] by {
      FirstPageLast(table, idColumn, orderColumn, ascOrDesc, isAggregateFn, k);
    }
    ForwardWalk(table, idColumn, orderColumn, ascOrDesc, isAggregateFn, k, j, cursor);
  }

  /** The page `after` a cursor of the first page's last row, and the first page, cover the first 2k rows. */
  lemma ForwardWalk(table: seq<Row>, idColumn: seq<Column>, orderColumn: seq<Column>, ascOrDesc: seq<Direction>,
                    isAggregateFn: Option<Column -> bool>, k: nat, j: nat, cursor: string)
    requires Keyed(table, idColumn, orderColumn, ascOrDesc) && isAggregateFn.Some? && k >= 1 && cursor != ""
    requires var s := Sorted(table, idColumn, orderColumn, ascOrDesc);
      && |s| >= 1 && j + 1 == Min(k, |s|)
      && GetDataFromCursor(cursor) == Success(RowValues(s[j], CombinedColumns(orderColumn, idColumn)))
    ensures var s := Sorted(table, idColumn, orderColumn, ascOrDesc);
      var next := NodesSpec(table, None, Some(cursor), Some(k), None, idColumn, orderColumn, ascOrDesc, isAggregateFn);
      && next.Success?
      && s[..Min(k, |s|)] + next.value.nodes == s[..Min(2 * k, |s|)]
      && (next.value.hasNextPage <==> |s| > 2 * k)
      && next.value.hasPreviousPage
  {
    var s := Sorted(table, idColumn, orderColumn, ascOrDesc);
    PageAfterRow(table, idColumn, orderColumn, ascOrDesc, isAggregateFn, j, cursor, k);
    var next := NodesSpec(table, None, Some(cursor), Some(k), None, idColumn, orderColumn, ascOrDesc, isAggregateFn).value;
    ForwardPages(s, k, j, next);
  }

  /** The first k rows and a page of the k rows after them cover the first 2k rows. */
  lemma ForwardPages(s: seq<Row>, k: nat, j: nat, next: Page)
    requires k >= 1 && |s| >= 1 && j + 1 == Min(k, |s|)
    requires var rest := s[j + 1..]; next == Page(rest[..Min(k, |rest|)], |rest| > k, true)
    ensures s[..Min(k, |s|)] + next.nodes == s[..Min(2 * k, |s|)]
    ensures next.hasNextPage <==> |s| > 2 * k
    ensures next.hasPreviousPage
  {
    FirstTwoWindows(s, k);
  }

  /**
   * Walking backward: after a last page of k rows, the page `before` a
   * cursor of its first row (such as the connection's start cursor) holds
   * the k rows before it, so the two together are the last 2k rows of the
   * sorted table; the earlier page has a previous page exactly when rows
   * precede them.
   */
  lemma BackwardPagination(table: seq<Row>, idColumn: seq<Column>, orderColumn: seq<Column>, ascOrDesc: seq<Direction>,
                           isAggregateFn: Option<Column -> bool>, k: nat, cursor: string)
    requires Keyed(table, idColumn, orderColumn, ascOrDesc) && isAggregateFn.Some? && k >= 1
    requires NodesSpec(table, None, None, None, Some(k), idColumn, orderColumn, ascOrDesc, isAggregateFn).Success?
    requires var last := NodesSpec(table, None, None, None, Some(k), idColumn, orderColumn, ascOrDesc, isAggregateFn).value.nodes;
      && |last| > 0 && cursor != ""
      && GetDataFromCursor(cursor) == Success(RowValues(last[0], CombinedColumns(orderColumn, idColumn)))
    ensures var s := Sorted(table, idColumn, orderColumn, ascOrDesc);
      var last := NodesSpec(table, None, None, None, Some(k), idColumn, orderColumn, ascOrDesc, isAggregateFn).value;
      var earlier := NodesSpec(table, Some(cursor), None, None, Some(k), idColumn, orderColumn, ascOrDesc, isAggregateFn);
      && earlier.Success?
      && earlier.value.nodes + last.nodes == s[|s| - Min(2 * k, |s|)..]
      && (earlier.value.hasPreviousPage <==> |s| > 2 * k)
      && earlier.value.hasNextPage
  {
    var s := Sorted(table, idColumn, orderColumn, ascOrDesc);
    var j := |s| - Min(k, |s|);
    assert |s| >= 1 && GetDataFromCursor(cursor) == Success(RowValues(s[j], CombinedColumns(orderColumn, idColumn)))
      && NodesSpec(table, None, None, None, Some(k), idColumn, orderColumn, ascOrDesc, isAggregateFn).value.nodes == s[j..] by {
      LastPageFirst(table, idColumn, orderColumn, ascOrDesc, isAggregateFn, k);
    }
    BackwardWalk(table, idColumn, orderColumn, ascOrDesc, isAggregateFn, k, j, cursor);
  }

  /** The page `before` a cursor of the last page's first row, and the last page, cover the last 2k rows. */
  lemma BackwardWalk(table: seq<Row>, idColumn: seq<Column>, orderColumn: seq<Column>, ascOrDesc: seq<Direction>,
                     isAggregateFn: Option<Column -> bool>, k: nat, j: nat, cursor: string)
    requires Keyed(table, idColumn, orderColumn, ascOrDesc) && isAggregateFn.Some? && k >= 1 && cursor != ""
    requires var s := Sorted(table, idColumn, orderColumn, ascOrDesc);
      && |s| >= 1 && j == |s| - Min(k, |s|)
      && GetDataFromCursor(cursor) == Success(RowValues(s[j], CombinedColumns(orderColumn, idColumn)))
    ensures var s := Sorted(table, idColumn, orderColumn, ascOrDesc);
      var earlier := NodesSpec(table, Some(cursor), None, None, Some(k), idColumn, orderColumn, ascOrDesc, isAggregateFn);
      && earlier.Success?
      && earlier.value.nodes + s[j..] == s[|s| - Min(2 * k, |s|)..]
      && (earlier.value.hasPreviousPage <==> |s| > 2 * k)
      && earlier.value.hasNextPage
  {
    var s := Sorted(table, idColumn, orderColumn, ascOrDesc);
    var earlier := NodesSpec(table, Some(cursor), None, None, Some(k), idColumn, orderColumn, ascOrDesc, isAggregateFn);
    assert earlier == Success(Page(s[j - Min(k, j)..j], true, j > k)) by {
      PageBeforeRow(table, idColumn, orderColumn, ascOrDesc, isAggregateFn, j, cursor, k);
    }
    BackwardPages(s, k, j, earlier.value);
  }

  /** A last page of the last k rows and a page of the k rows before them cover the last 2k rows. */
  lemma BackwardPages(s: seq<Row>, k: nat, j: nat, earlier: Page)
    requires k >= 1 && |s| >= 1 && j == |s| - Min(k, |s|)
    requires earlier == Page(s[j - Min(k, j)..j], true, j > k)
    ensures earlier.nodes + s[j..] == s[|s| - Min(2 * k, |s|)..]
    ensures earlier.hasPreviousPage <==> |s| > 2 * k
    ensures earlier.hasNextPage
  {
    LastTwoWindows(s, k, j);
  }

  /**
   * Forward walk over whole connections: the request for the first k rows,
   * then the request for k rows `after` its end cursor, show the first 2k
   * rows of the sorted table between them.
   */
  lemma ForwardByEndCursor(table: seq<Row>, opts: Options, orderBy: seq<Column>, orderDirection: seq<Direction>, k: nat)
    requires opts.legacyOrder.None? && opts.modifyNodeFn.None? && opts.isAggregateFn.Some? && k >= 1
    requires Keyed(table, opts.idColumn, orderBy, orderDirection)
    requires ConnectionSpec(table, PageArgs(None, None, Some(k), None, Some(orderBy), Some(orderDirection)), opts).Success?
    requires |ConnectionSpec(table, PageArgs(None, None, Some(k), None, Some(orderBy), Some(orderDirection)), opts).value.edges| > 0
    ensures var s := Sorted(table, opts.idColumn, orderBy, orderDirection);
      var c1 := ConnectionSpec(table, PageArgs(None, None, Some(k), None, Some(orderBy), Some(orderDirection)), opts).value;
      var c2 := ConnectionSpec(table, PageArgs(None, c1.pageInfo.endCursor, Some(k), None, Some(orderBy), Some(orderDirection)), opts);
      && c2.Success?
      && EdgeNodes(c1.edges) + EdgeNodes(c2.value.edges) == s[..Min(2 * k, |s|)]
      && (c2.value.pageInfo.hasNextPage <==> |s| > 2 * k)
      && c2.value.pageInfo.hasPreviousPage
  {
    var idColumn, agg := opts.idColumn, opts.isAggregateFn;
    var cols := CombinedColumns(orderBy, idColumn);
    CombinedColumnsSpec(orderBy, idColumn, orderDirection);
    var args1 := PageArgs(None, None, Some(k), None, Some(orderBy), Some(orderDirection));
    ConnectionOfPage(table, args1, opts);
    var p1 := NodesSpec(table, None, None, Some(k), None, idColumn, orderBy, orderDirection, agg).value;
    AssembledPage(table, p1, cols, opts);
    var cursor := Assemble(table, p1, cols, opts).pageInfo.endCursor.value;
    ForwardPagination(table, idColumn, orderBy, orderDirection, agg, k, cursor);
    var args2 := PageArgs(None, Some(cursor), Some(k), None, Some(orderBy), Some(orderDirection));
    ConnectionOfPage(table, args2, opts);
    var p2 := NodesSpec(table, None, Some(cursor), Some(k), None, idColumn, orderBy, orderDirection, agg).value;
    AssembledNodes(table, p2, cols, opts);
  }

  /**
   * Backward walk over whole connections: the request for the last k rows,
   * then the request for k rows `before` its start cursor, show the last 2k
   * rows of the sorted table between them.
   */
  lemma BackwardByStartCursor(table: seq<Row>, opts: Options, orderBy: seq<Column>, orderDirection: seq<Direction>, k: nat)
    requires opts.legacyOrder.None? && opts.modifyNodeFn.None? && opts.isAggregateFn.Some? && k >= 1
    requires Keyed(table, opts.idColumn, orderBy, orderDirection)
    requires ConnectionSpec(table, PageArgs(None, None, None, Some(k), Some(orderBy), Some(orderDirection)), opts).Success?
    requires |ConnectionSpec(table, PageArgs(None, None, None, Some(k), Some(orderBy), Some(orderDirection)), opts).value.edges| > 0
    ensures var s := Sorted(table, opts.idColumn, orderBy, orderDirection);
      var c1 := ConnectionSpec(table, PageArgs(None, None, None, Some(k), Some(orderBy), Some(orderDirection)), opts).value;
      var c2 := ConnectionSpec(table, PageArgs(c1.pageInfo.startCursor, None, None, Some(k), Some(orderBy), Some(orderDirection)), opts);
      && c2.Success?
      && EdgeNodes(c2.value.edges) + EdgeNodes(c1.edges) == s[|s| - Min(2 * k, |s|)..]
      && (c2.value.pageInfo.hasPreviousPage <==> |s| > 2 * k)
      && c2.value.pageInfo.hasNextPage
  {
    var args1 := PageArgs(None, None, None, Some(k), Some(orderBy), Some(orderDirection));
    ConnectionOfPage(table, args1, opts);
    var p1 := NodesSpec(table, None, None, None, Some(k), opts.idColumn, orderBy, orderDirection, opts.isAggregateFn).value;
    var cursor := BackwardAssembled(table, opts, orderBy, orderDirection, k, p1);
    ConnectionOfPage(table, PageArgs(Some(cursor), None, None, Some(k), Some(orderBy), Some(orderDirection)), opts);
  }

  /** The pages of a backward walk by start cursor, assembled into connections. */
  lemma BackwardAssembled(table: seq<Row>, opts: Options, orderBy: seq<Column>, orderDirection: seq<Direction>, k: nat, p1: Page)
    returns (cursor: string)
    requires opts.modifyNodeFn.None? && opts.isAggregateFn.Some? && k >= 1
    requires Keyed(table, opts.idColumn, orderBy, orderDirection)
    requires NodesSpec(table, None, None, None, Some(k), opts.idColumn, orderBy, orderDirection, opts.isAggregateFn) == Success(p1)
    requires |p1.nodes| > 0
    ensures var s := Sorted(table, opts.idColumn, orderBy, orderDirection);
      var cols := CombinedColumns(orderBy, opts.idColumn);
      var c1 := Assemble(table, p1, cols, opts);
      var p2 := NodesSpec(table, Some(cursor), None, None, Some(k), opts.idColumn, orderBy, orderDirection, opts.isAggregateFn);
      && c1.pageInfo.startCursor == Some(cursor)
      && p2.Success?
      && EdgeNodes(Assemble(table, p2.value, cols, opts).edges) + EdgeNodes(c1.edges) == s[|s| - Min(2 * k, |s|)..]
      && (Assemble(table, p2.value, cols, opts).pageInfo.hasPreviousPage <==> |s| > 2 * k)
      && Assemble(table, p2.value, cols, opts).pageInfo.hasNextPage
  {
    var cols := CombinedColumns(orderBy, opts.idColumn);
    CombinedColumnsSpec(orderBy, opts.idColumn, orderDirection);
    cursor := StartCursorOf(table, p1, cols, opts);
    BackwardStep(table, opts, orderBy, orderDirection, k, p1, cursor);
  }

  /** The page before a cursor of the last page's first row, assembled into a connection. */
  lemma BackwardStep(table: seq<Row>, opts: Options, orderBy: seq<Column>, orderDirection: seq<Direction>, k: nat, p1: Page,
                     cursor: string)
    requires opts.modifyNodeFn.None? && opts.isAggregateFn.Some? && k >= 1
    requires Keyed(table, opts.idColumn, orderBy, orderDirection)
    requires NodesSpec(table, None, None, None, Some(k), opts.idColumn, orderBy, orderDirection, opts.isAggregateFn) == Success(p1)
    requires |p1.nodes| > 0 && cursor != ""
    requires GetDataFromCursor(cursor) == Success(RowValues(p1.nodes[0], CombinedColumns(orderBy, opts.idColumn)))
    ensures var s := Sorted(table, opts.idColumn, orderBy, orderDirection);
      var cols := CombinedColumns(orderBy, opts.idColumn);
      var p2 := NodesSpec(table, Some(cursor), None, None, Some(k), opts.idColumn, orderBy, orderDirection, opts.isAggregateFn);
      && p2.Success?
      && EdgeNodes(Assemble(table, p2.value, cols, opts).edges) + p1.nodes == s[|s| - Min(2 * k, |s|)..]
      && (Assemble(table, p2.value, cols, opts).pageInfo.hasPreviousPage <==> |s| > 2 * k)
      && Assemble(table, p2.value, cols, opts).pageInfo.hasNextPage
  {
    BackwardPagination(table, opts.idColumn, orderBy, orderDirection, opts.isAggregateFn, k, cursor);
    var p2 := NodesSpec(table, Some(cursor), None, None, Some(k), opts.idColumn, orderBy, orderDirection, opts.isAggregateFn).value;
    AssembledNodes(table, p2, CombinedColumns(orderBy, opts.idColumn), opts);
  }

  /** The start cursor of a connection around a non-empty page addresses the page's first node. */
  lemma StartCursorOf(table: seq<Row>, page: Page, cols: seq<Column>, opts: Options) returns (cursor: string)
    requires opts.modifyNodeFn.None? && |cols| >= 1 && |page.nodes| > 0
    ensures var c := Assemble(table, page, cols, opts);
      && c.pageInfo.startCursor == Some(cursor) && cursor != ""
      && GetDataFromCursor(cursor) == Success(RowValues(page.nodes[0], cols))
      && EdgeNodes(c.edges) == page.nodes
  {
    AssembledPage(table, page, cols, opts);
    cursor := Assemble(table, page, cols, opts).pageInfo.startCursor.value;
  }

  /** With orderBy and orderDirection given and no legacy pair, a request's connection is its page assembled. */
  lemma ConnectionOfPage(table: seq<Row>, args: PageArgs, opts: Options)
    requires opts.legacyOrder.None? && args.orderBy.Some? && args.orderDirection.Some?
    requires |args.orderDirection.value| == |args.orderBy.value| >= 1
    ensures ValidOrder(args, opts)
    ensures var page := NodesSpec(table, args.before, args.after, args.first, args.last, opts.idColumn,
                                  args.orderBy.value, args.orderDirection.value, opts.isAggregateFn);
      && (ConnectionSpec(table, args, opts).Success? <==> page.Success?)
      && (page.Success? ==> ConnectionSpec(table, args, opts).value
                             == Assemble(table, page.value, CombinedColumns(args.orderBy.value, opts.idColumn), opts))
  {
  }
}
