/**
 * The order orderNodesBy asks the database for: one ORDER BY clause per
 * combined column, compared lexicographically, each column in its own
 * direction, NULL least.  SortRows is the reference result of such a
 * query; with the id tiebreaker making keys distinct it is the only one.
 */
module RowOrder {
  import opened Wrappers
  import opened Values
  import opened ColumnSet

  /** Lexicographic comparison of two cell tuples, column k in direction dirs[k]. */
  function LexCompare(a: seq<Option<Value>>, b: seq<Option<Value>>, dirs: seq<Direction>): (r: Ordering)
    requires |a| == |b| == |dirs|
    ensures r == Equal <==> a == b
    decreases |a|
  {
    if |a| == 0 then Equal
    else
      var head := DirCompare(a[0], b[0], dirs[0]);
      if head != Equal then head
      else
        var r := LexCompare(a[1..], b[1..], dirs[1..]);
        assert r == Equal <==> a == b by {
          assert a == [a[0]] + a[1..] && b == [b[0]] + b[1..];
        }
        r
  }

  lemma {:induction false} LexCompareFlip(a: seq<Option<Value>>, b: seq<Option<Value>>, dirs: seq<Direction>)
    requires |a| == |b| == |dirs|
    ensures LexCompare(b, a, dirs) == Flip(LexCompare(a, b, dirs))
    decreases |a|
  {
    if |a| > 0 {
      DirCompareFlip(a[0], b[0], dirs[0]);
      LexCompareFlip(a[1..], b[1..], dirs[1..]);
    }
  }

  lemma {:induction false} LexCompareTransitive(a: seq<Option<Value>>, b: seq<Option<Value>>, c: seq<Option<Value>>, dirs: seq<Direction>)
    requires |a| == |b| == |c| == |dirs|
    requires LexCompare(a, b, dirs) == Less && LexCompare(b, c, dirs) == Less
    ensures LexCompare(a, c, dirs) == Less
    decreases |a|
  {
    var ab := DirCompare(a[0], b[0], dirs[0]);
    var bc := DirCompare(b[0], c[0], dirs[0]);
    if ab == Less && bc == Less {
      DirCompareTransitive(a[0], b[0], c[0], dirs[0]);
    } else if ab == Equal && bc == Equal {
      LexCompareTransitive(a[1..], b[1..], c[1..], dirs[1..]);
    }
  }

  /** Column k decides the comparison: the columns before it agree and it compares as o. */
  predicate DecidedAt(a: seq<Option<Value>>, b: seq<Option<Value>>, dirs: seq<Direction>, k: nat, o: Ordering)
    requires k < |a| == |b| == |dirs|
  {
    a[..k] == b[..k] && DirCompare(a[k], b[k], dirs[k]) == o
  }

  /** A strict comparison is decided by the first column where the tuples differ. */
  lemma {:induction false} LexCompareDecided(a: seq<Option<Value>>, b: seq<Option<Value>>, dirs: seq<Direction>, o: Ordering)
    requires |a| == |b| == |dirs|
    requires o != Equal
    ensures LexCompare(a, b, dirs) == o <==> exists k :: 0 <= k < |a| && DecidedAt(a, b, dirs, k, o)
    decreases |a|
  {
    if |a| > 0 {
      LexCompareDecided(a[1..], b[1..], dirs[1..], o);
      if DirCompare(a[0], b[0], dirs[0]) == Equal {
        if LexCompare(a, b, dirs) == o {
          var k :| 0 <= k < |a| - 1 && DecidedAt(a[1..], b[1..], dirs[1..], k, o);
          assert a[..k + 1] == [a[0]] + a[1..][..k] && b[..k + 1] == [b[0]] + b[1..][..k];
          assert DecidedAt(a, b, dirs, k + 1, o);
        }
        if exists k :: 0 <= k < |a| && DecidedAt(a, b, dirs, k, o) {
          var k :| 0 <= k < |a| && DecidedAt(a, b, dirs, k, o);
          assert k != 0;
          assert a[..k][1..] == a[1..][..k - 1] && b[..k][1..] == b[1..][..k - 1];
          assert DecidedAt(a[1..], b[1..], dirs[1..], k - 1, o);
        }
      } else {
        assert DecidedAt(a, b, dirs, 0, DirCompare(a[0], b[0], dirs[0]));
        forall k | 0 < k < |a| ensures !DecidedAt(a, b, dirs, k, o) {
          assert a[..k][0] == a[0] && b[..k][0] == b[0];
        }
      }
    }
  }

  /** Two rows compared on the given columns. */
  function RowCompare(x: Row, y: Row, cols: seq<Column>, dirs: seq<Direction>): Ordering
    requires |cols| == |dirs|
  {
    LexCompare(RowValues(x, cols), RowValues(y, cols), dirs)
  }

  lemma RowCompareAtMostTransitive(x: Row, y: Row, z: Row, cols: seq<Column>, dirs: seq<Direction>)
    requires |cols| == |dirs|
    requires RowCompare(x, y, cols, dirs) != Greater && RowCompare(y, z, cols, dirs) != Greater
    ensures RowCompare(x, z, cols, dirs) != Greater
  {
    var a, b, c := RowValues(x, cols), RowValues(y, cols), RowValues(z, cols);
    if a != b && b != c {
      LexCompareTransitive(a, b, c, dirs);
    }
  }

  /** Every row precedes or ties with every later row. */
  predicate Ordered(s: seq<Row>, cols: seq<Column>, dirs: seq<Direction>)
    requires |cols| == |dirs|
  {
    forall i, j :: 0 <= i < j < |s| ==> RowCompare(s[i], s[j], cols, dirs) != Greater
  }

  /** No two rows share their values on the given columns. */
  predicate KeysDistinct(s: seq<Row>, cols: seq<Column>) {
    forall i, j :: 0 <= i < j < |s| ==> RowValues(s[i], cols) != RowValues(s[j], cols)
  }

  /** Ordered rows with distinct keys are strictly increasing. */
  lemma OrderedStrictly(s: seq<Row>, cols: seq<Column>, dirs: seq<Direction>)
    requires |cols| == |dirs|
    requires Ordered(s, cols, dirs) && KeysDistinct(s, cols)
    ensures forall i, j :: 0 <= i < j < |s| ==> RowCompare(s[i], s[j], cols, dirs) == Less
  {
  }

  function Insert(r: Row, s: seq<Row>, cols: seq<Column>, dirs: seq<Direction>): seq<Row>
    requires |cols| == |dirs|
    decreases |s|
  {
    if |s| == 0 then [r]
    else if RowCompare(r, s[0], cols, dirs) == Greater then [s[0]] + Insert(r, s[1..], cols, dirs)
    else [r] + s
  }

  /** Insertion adds the row and loses none. */
  lemma {:induction false} InsertPermutes(r: Row, s: seq<Row>, cols: seq<Column>, dirs: seq<Direction>)
    requires |cols| == |dirs|
    ensures multiset(Insert(r, s, cols, dirs)) == multiset(s) + multiset{r}
    decreases |s|
  {
    if |s| > 0 && RowCompare(r, s[0], cols, dirs) == Greater {
      InsertPermutes(r, s[1..], cols, dirs);
      assert s == [s[0]] + s[1..];
    }
  }

  /** The rows of the table in the order the ORDER BY clauses ask for. */
  function SortRows(s: seq<Row>, cols: seq<Column>, dirs: seq<Direction>): seq<Row>
    requires |cols| == |dirs|
    decreases |s|
  {
    if |s| == 0 then []
    else Insert(s[0], SortRows(s[1..], cols, dirs), cols, dirs)
  }

  /** Sorting keeps every row, as often as it occurs. */
  lemma {:induction false} SortRowsPermutes(s: seq<Row>, cols: seq<Column>, dirs: seq<Direction>)
    requires |cols| == |dirs|
    ensures multiset(SortRows(s, cols, dirs)) == multiset(s)
    decreases |s|
  {
    if |s| > 0 {
      SortRowsPermutes(s[1..], cols, dirs);
      InsertPermutes(s[0], SortRows(s[1..], cols, dirs), cols, dirs);
      assert s == [s[0]] + s[1..];
    }
  }

  lemma {:induction false} InsertOrdered(r: Row, s: seq<Row>, cols: seq<Column>, dirs: seq<Direction>)
    requires |cols| == |dirs|
    requires Ordered(s, cols, dirs)
    ensures Ordered(Insert(r, s, cols, dirs), cols, dirs)
    decreases |s|
  {
    if |s| == 0 {
    } else if RowCompare(r, s[0], cols, dirs) == Greater {
      var rest := Insert(r, s[1..], cols, dirs);
      OrderedTail(s, cols, dirs);
      InsertOrdered(r, s[1..], cols, dirs);
      HeadBeforeInsert(r, s, rest, cols, dirs);
      OrderedCons(s[0], rest, cols, dirs);
      assert Insert(r, s, cols, dirs) == [s[0]] + rest;
    } else {
      var t := Insert(r, s, cols, dirs);
      assert t == [r] + s;
      forall j | 0 <= j < |s| ensures RowCompare(r, s[j], cols, dirs) != Greater {
        if j > 0 {
          RowCompareAtMostTransitive(r, s[0], s[j], cols, dirs);
        }
      }
      OrderedCons(r, s, cols, dirs);
    }
  }

  /** The head of s comes no later than anything in the insertion of a greater row into the tail. */
  lemma HeadBeforeInsert(r: Row, s: seq<Row>, rest: seq<Row>, cols: seq<Column>, dirs: seq<Direction>)
    requires |cols| == |dirs| && |s| > 0 && Ordered(s, cols, dirs)
    requires RowCompare(r, s[0], cols, dirs) == Greater && rest == Insert(r, s[1..], cols, dirs)
    ensures forall j :: 0 <= j < |rest| ==> RowCompare(s[0], rest[j], cols, dirs) != Greater
  {
    LexCompareFlip(RowValues(r, cols), RowValues(s[0], cols), dirs);
    InsertPermutes(r, s[1..], cols, dirs);
    forall j | 0 <= j < |rest| ensures RowCompare(s[0], rest[j], cols, dirs) != Greater {
      assert rest[j] in multiset(rest);
      if rest[j] != r {
        assert rest[j] in multiset(s[1..]);
        var m := MultisetIndex(s[1..], rest[j]);
        assert s[m + 1] == rest[j];
      }
    }
  }

  /** A row no later than any row of an ordered sequence can head it. */
  lemma OrderedCons(x: Row, rest: seq<Row>, cols: seq<Column>, dirs: seq<Direction>)
    requires |cols| == |dirs| && Ordered(rest, cols, dirs)
    requires forall j :: 0 <= j < |rest| ==> RowCompare(x, rest[j], cols, dirs) != Greater
    ensures Ordered([x] + rest, cols, dirs)
  {
    var t := [x] + rest;
    forall i, j | 0 <= i < j < |t| ensures RowCompare(t[i], t[j], cols, dirs) != Greater {
      assert t[j] == rest[j - 1];
      if i > 0 {
        assert t[i] == rest[i - 1];
      }
    }
  }

  lemma {:induction false} SortRowsOrdered(s: seq<Row>, cols: seq<Column>, dirs: seq<Direction>)
    requires |cols| == |dirs|
    ensures Ordered(SortRows(s, cols, dirs), cols, dirs)
    decreases |s|
  {
    if |s| > 0 {
      SortRowsOrdered(s[1..], cols, dirs);
      InsertOrdered(s[0], SortRows(s[1..], cols, dirs), cols, dirs);
    }
  }

  lemma MultisetIndex(s: seq<Row>, x: Row) returns (i: nat)
    requires x in multiset(s)
    ensures i < |s| && s[i] == x
  {
    assert x in s;
    i :| 0 <= i < |s| && s[i] == x;
  }

  lemma OrderedTail(s: seq<Row>, cols: seq<Column>, dirs: seq<Direction>)
    requires |cols| == |dirs| && |s| > 0 && Ordered(s, cols, dirs)
    ensures Ordered(s[1..], cols, dirs)
  {
    forall i, j | 0 <= i < j < |s| - 1 ensures RowCompare(s[1..][i], s[1..][j], cols, dirs) != Greater {
      assert s[1..][i] == s[i + 1] && s[1..][j] == s[j + 1];
    }
  }

  /** The first rows of two orderings of the same rows with distinct keys agree. */
  lemma OrderedSameHead(s: seq<Row>, t: seq<Row>, cols: seq<Column>, dirs: seq<Direction>)
    requires |cols| == |dirs|
    requires |s| > 0 && multiset(s) == multiset(t)
    requires Ordered(s, cols, dirs) && Ordered(t, cols, dirs) && KeysDistinct(s, cols)
    ensures |t| > 0 && s[0] == t[0]
  {
    assert s[0] in multiset(t);
    var j := MultisetIndex(t, s[0]);
    assert t[0] in multiset(s);
    var i := MultisetIndex(s, t[0]);
    assert RowCompare(s[0], t[0], cols, dirs) != Greater by {
      if i == 0 { } else { }
    }
    assert RowCompare(t[0], s[0], cols, dirs) != Greater by {
      if j == 0 { } else { }
    }
    LexCompareFlip(RowValues(s[0], cols), RowValues(t[0], cols), dirs);
    assert RowValues(s[0], cols) == RowValues(s[i], cols);
  }

  /**
   * Two orderings of the same rows with distinct keys coincide: a database
   * that honours the ORDER BY clauses has exactly one answer to give.
   */
  lemma {:induction false} OrderedUnique(s: seq<Row>, t: seq<Row>, cols: seq<Column>, dirs: seq<Direction>)
    requires |cols| == |dirs|
    requires multiset(s) == multiset(t)
    requires Ordered(s, cols, dirs) && Ordered(t, cols, dirs) && KeysDistinct(s, cols)
    ensures s == t
    decreases |s|
  {
    if |s| == 0 {
      assert |t| == |multiset(t)|;
    } else {
      OrderedSameHead(s, t, cols, dirs);
      OrderedTail(s, cols, dirs);
      OrderedTail(t, cols, dirs);
      assert KeysDistinct(s[1..], cols);
      assert s == [s[0]] + s[1..] && t == [t[0]] + t[1..];
      assert multiset(s[1..]) == multiset(s) - multiset{s[0]};
      assert multiset(t[1..]) == multiset(t) - multiset{s[0]};
      OrderedUnique(s[1..], t[1..], cols, dirs);
    }
  }

  /** SortRows is a reordering of the rows that honours the order. */
  lemma SortRowsSpec(s: seq<Row>, cols: seq<Column>, dirs: seq<Direction>)
    requires |cols| == |dirs|
    ensures multiset(SortRows(s, cols, dirs)) == multiset(s)
    ensures Ordered(SortRows(s, cols, dirs), cols, dirs)
    ensures KeysDistinct(s, cols) ==> forall t :: multiset(t) == multiset(s) && Ordered(t, cols, dirs) ==> t == SortRows(s, cols, dirs)
  {
    var sorted := SortRows(s, cols, dirs);
    SortRowsPermutes(s, cols, dirs);
    SortRowsOrdered(s, cols, dirs);
    if KeysDistinct(s, cols) {
      assert KeysDistinct(sorted, cols) by {
        forall i, j | 0 <= i < j < |sorted| ensures RowValues(sorted[i], cols) != RowValues(sorted[j], cols) {
          if RowValues(sorted[i], cols) == RowValues(sorted[j], cols) {
            KeysDistinctMultiset(s, sorted, cols, i, j);
          }
        }
      }
      forall t | multiset(t) == multiset(s) && Ordered(t, cols, dirs) ensures t == sorted {
        OrderedUnique(sorted, t, cols, dirs);
      }
    }
  }

  /** Distinct keys survive a reordering. */
  lemma KeysDistinctMultiset(s: seq<Row>, t: seq<Row>, cols: seq<Column>, i: nat, j: nat)
    requires multiset(s) == multiset(t) && KeysDistinct(s, cols)
    requires i < j < |t|
    ensures RowValues(t[i], cols) != RowValues(t[j], cols)
  {
    if RowValues(t[i], cols) == RowValues(t[j], cols) {
      assert t[i] in multiset(s);
      var p := MultisetIndex(s, t[i]);
      assert t[j] in multiset(s);
      var q := MultisetIndex(s, t[j]);
      assert p == q;
      assert t[i] == t[j];
      var m := multiset(t);
      assert t == t[..i] + [t[i]] + t[i + 1..j] + [t[j]] + t[j + 1..];
      assert m[t[i]] >= 2;
      assert s == s[..p] + [s[p]] + s[p + 1..];
      assert forall x :: x in s[..p] + s[p + 1..] ==> RowValues(x, cols) != RowValues(s[p], cols);
      assert false;
    }
  }

  datatype OrderClause = OrderClause(column: Column, direction: Direction)

  function ClauseColumns(clauses: seq<OrderClause>): seq<Column> {
    seq(|clauses|, i requires 0 <= i < |clauses| => clauses[i].column)
  }

  function ClauseDirections(clauses: seq<OrderClause>): seq<Direction> {
    seq(|clauses|, i requires 0 <= i < |clauses| => clauses[i].direction)
  }

  lemma ClausesNext(clauses: seq<OrderClause>, clause: OrderClause)
    ensures ClauseColumns(clauses + [clause]) == ClauseColumns(clauses) + [clause.column]
    ensures ClauseDirections(clauses + [clause]) == ClauseDirections(clauses) + [clause.direction]
  {
  }

  /** The rows an ordered query yields. */
  function OrderedRows(rows: seq<Row>, clauses: seq<OrderClause>): seq<Row> {
    SortRows(rows, ClauseColumns(clauses), ClauseDirections(clauses))
  }

  /**
   * orderNodesBy: normalise the columns, then add one ORDER BY clause per
   * combined column with its direction, in column order.
   */
  method OrderNodesBy(idColumn: seq<Column>, orderColumn: seq<Column>, ascOrDesc: seq<Direction>)
    returns (clauses: seq<OrderClause>)
    requires |ascOrDesc| == |orderColumn| >= 1
    ensures ClauseColumns(clauses) == CombinedColumns(orderColumn, idColumn)
    ensures ClauseDirections(clauses) == CombinedDirections(orderColumn, idColumn, ascOrDesc)
  {
    var cols, dirs := CombineOrderColumnAndAscOrDesc(orderColumn, idColumn, ascOrDesc);
    assert |cols| == |dirs|;
    clauses := [];
    for index := 0 to |cols|
      invariant ClauseColumns(clauses) == cols[..index]
      invariant ClauseDirections(clauses) == dirs[..index]
    {
      var clause := OrderClause(cols[index], dirs[index]);
      ClausesNext(clauses, clause);
      assert cols[..index + 1] == cols[..index] + [cols[index]];
      assert dirs[..index + 1] == dirs[..index] + [dirs[index]];
      clauses := clauses + [clause];
    }
    assert cols[..|cols|] == cols && dirs[..|dirs|] == dirs;
  }
}
