/**
 * The column-set normaliser of custom-pagination.js: the user's order
 * columns, then every tiebreaker (id) column they lack, each appended one
 * sorted in the last direction the user gave.
 */
module ColumnSet {
  import opened Values

  predicate Distinct(s: seq<Column>) {
    forall i, j :: 0 <= i < j < |s| ==> s[i] != s[j]
  }

  /** idContains: a search of the order columns for one column. */
  function IdContains(orderColumns: seq<Column>, c: Column): (r: bool)
    ensures r <==> c in orderColumns
    decreases |orderColumns|
  {
    |orderColumns| > 0 && (orderColumns[0] == c || IdContains(orderColumns[1..], c))
  }

  /** The id columns the order columns lack, in id-column order. */
  function Appended(orderColumns: seq<Column>, idColumns: seq<Column>): seq<Column>
    decreases |idColumns|
  {
    if |idColumns| == 0 then []
    else
      var init := Appended(orderColumns, idColumns[..|idColumns| - 1]);
      var c := idColumns[|idColumns| - 1];
      if c in orderColumns then init else init + [c]
  }

  function CombinedColumns(orderColumns: seq<Column>, idColumns: seq<Column>): seq<Column> {
    orderColumns + Appended(orderColumns, idColumns)
  }

  function CombinedDirections(orderColumns: seq<Column>, idColumns: seq<Column>, ascOrDesc: seq<Direction>): seq<Direction>
    requires |ascOrDesc| >= 1
  {
    var last := ascOrDesc[|ascOrDesc| - 1];
    ascOrDesc + seq(|Appended(orderColumns, idColumns)|, _ => last)
  }

  lemma {:induction false} AppendedMembers(orderColumns: seq<Column>, idColumns: seq<Column>)
    ensures forall c :: c in Appended(orderColumns, idColumns) <==> c in idColumns && c !in orderColumns
    decreases |idColumns|
  {
    if |idColumns| > 0 {
      var init := idColumns[..|idColumns| - 1];
      AppendedMembers(orderColumns, init);
      assert idColumns == init + [idColumns[|idColumns| - 1]];
    }
  }

  lemma {:induction false} AppendedDistinct(orderColumns: seq<Column>, idColumns: seq<Column>)
    requires Distinct(idColumns)
    ensures Distinct(Appended(orderColumns, idColumns))
    decreases |idColumns|
  {
    if |idColumns| > 0 {
      var init := idColumns[..|idColumns| - 1];
      AppendedDistinct(orderColumns, init);
      AppendedMembers(orderColumns, init);
    }
  }

  /** The index of the first occurrence of a column. */
  function Position(s: seq<Column>, c: Column): (p: nat)
    requires c in s
    ensures p < |s| && s[p] == c && c !in s[..p]
    decreases |s|
  {
    if s[0] == c then 0
    else
      var p := 1 + Position(s[1..], c);
      assert s[..p] == [s[0]] + s[1..][..p - 1];
      p
  }

  /** A column's first occurrence in a prefix that holds it is its first occurrence overall. */
  lemma PositionPrefix(s: seq<Column>, k: nat, c: Column)
    requires k <= |s| && c in s[..k]
    ensures c in s && Position(s, c) == Position(s[..k], c)
  {
    var p, q := Position(s, c), Position(s[..k], c);
    assert s[..k][q] == c;
  }

  /** The appended columns keep the order of the id columns. */
  lemma {:induction false} AppendedInOrder(orderColumns: seq<Column>, idColumns: seq<Column>)
    requires Distinct(idColumns)
    ensures forall i, j :: 0 <= i < j < |Appended(orderColumns, idColumns)| ==>
      InIdOrder(idColumns, Appended(orderColumns, idColumns)[i], Appended(orderColumns, idColumns)[j])
    decreases |idColumns|
  {
    if |idColumns| > 0 {
      var n := |idColumns|;
      var init, c := idColumns[..n - 1], idColumns[n - 1];
      assert Distinct(init);
      AppendedInOrder(orderColumns, init);
      AppendedMembers(orderColumns, init);
      var a0, a := Appended(orderColumns, init), Appended(orderColumns, idColumns);
      forall i, j | 0 <= i < j < |a| ensures InIdOrder(idColumns, a[i], a[j]) {
        assert a[i] == a0[i] && a0[i] in a0;
        InPrefix(idColumns, n - 1, a0[i]);
        if j < |a0| {
          assert a[j] == a0[j] && a0[j] in a0;
          InPrefix(idColumns, n - 1, a0[j]);
          assert InIdOrder(init, a0[i], a0[j]);
        } else {
          assert a[j] == c && c !in init;
          LastPosition(idColumns);
        }
      }
    }
  }

  /** Both columns are id columns, the first one earlier. */
  predicate InIdOrder(idColumns: seq<Column>, x: Column, y: Column) {
    x in idColumns && y in idColumns && Position(idColumns, x) < Position(idColumns, y)
  }

  lemma InPrefix(s: seq<Column>, k: nat, c: Column)
    requires k <= |s| && c in s[..k]
    ensures c in s && Position(s, c) == Position(s[..k], c) < k
  {
    PositionPrefix(s, k, c);
  }

  /** A column found only at the end is found there. */
  lemma LastPosition(s: seq<Column>)
    requires |s| > 0 && s[|s| - 1] !in s[..|s| - 1]
    ensures Position(s, s[|s| - 1]) == |s| - 1
  {
    var p := Position(s, s[|s| - 1]);
    assert s[..p] <= s[..|s| - 1];
  }

  /** Past the order columns, the combined columns follow the id columns' order. */
  lemma CombinedInIdOrder(orderColumns: seq<Column>, idColumns: seq<Column>)
    requires Distinct(idColumns)
    ensures var cols := CombinedColumns(orderColumns, idColumns);
      forall i, j :: |orderColumns| <= i < j < |cols| ==> InIdOrder(idColumns, cols[i], cols[j])
  {
    var cols, a := CombinedColumns(orderColumns, idColumns), Appended(orderColumns, idColumns);
    AppendedInOrder(orderColumns, idColumns);
    forall i, j | |orderColumns| <= i < j < |cols| ensures InIdOrder(idColumns, cols[i], cols[j]) {
      var i', j' := i - |orderColumns|, j - |orderColumns|;
      assert cols[i] == a[i'] && cols[j] == a[j'];
      assert InIdOrder(idColumns, a[i'], a[j']);
    }
  }

  /**
   * The combined column list starts with the order columns, contains every
   * id column, adds nothing else, repeats no column when neither input
   * does, pairs each appended column with the last user direction, and
   * appends the id columns in their own order.
   */
  lemma CombinedColumnsSpec(orderColumns: seq<Column>, idColumns: seq<Column>, ascOrDesc: seq<Direction>)
    requires |ascOrDesc| == |orderColumns| >= 1
    ensures var cols := CombinedColumns(orderColumns, idColumns);
      var dirs := CombinedDirections(orderColumns, idColumns, ascOrDesc);
      && |cols| == |dirs|
      && cols[..|orderColumns|] == orderColumns && dirs[..|orderColumns|] == ascOrDesc
      && (forall c :: c in idColumns ==> c in cols)
      && (forall c :: c in cols ==> c in orderColumns || c in idColumns)
      && (forall i :: |orderColumns| <= i < |cols| ==>
            cols[i] in idColumns && cols[i] !in orderColumns && dirs[i] == ascOrDesc[|ascOrDesc| - 1])
      && (Distinct(orderColumns) && Distinct(idColumns) ==> Distinct(cols))
      && (Distinct(idColumns) ==> forall i, j :: |orderColumns| <= i < j < |cols| ==> InIdOrder(idColumns, cols[i], cols[j]))
  {
    var cols := CombinedColumns(orderColumns, idColumns);
    var extra := Appended(orderColumns, idColumns);
    AppendedMembers(orderColumns, idColumns);
    assert forall i :: |orderColumns| <= i < |cols| ==> cols[i] == extra[i - |orderColumns|];
    if Distinct(orderColumns) && Distinct(idColumns) {
      AppendedDistinct(orderColumns, idColumns);
      DistinctConcat(orderColumns, extra);
    }
    if Distinct(idColumns) {
      CombinedInIdOrder(orderColumns, idColumns);
    }
  }

  /** Two lists without repeats and without a common column join into one without repeats. */
  lemma DistinctConcat(a: seq<Column>, b: seq<Column>)
    requires Distinct(a) && Distinct(b) && forall c :: c in b ==> c !in a
    ensures Distinct(a + b)
  {
    forall i, j | 0 <= i < j < |a + b| ensures (a + b)[i] != (a + b)[j] {
      if j < |a| {
        assert (a + b)[i] == a[i] && (a + b)[j] == a[j];
      } else if |a| <= i {
        assert (a + b)[i] == b[i - |a|] && (a + b)[j] == b[j - |a|];
      } else {
        assert (a + b)[i] == a[i] && (a + b)[j] == b[j - |a|] && b[j - |a|] in b;
      }
    }
  }

  /**
   * combineOrderColumnAndAscOrDesc: copies of the order columns and
   * directions, extended by each id column not among the order columns.
   */
  method CombineOrderColumnAndAscOrDesc(orderColumn: seq<Column>, idColumn: seq<Column>, ascOrDesc: seq<Direction>)
    returns (cols: seq<Column>, dirs: seq<Direction>)
    requires |ascOrDesc| == |orderColumn| >= 1
    ensures cols == CombinedColumns(orderColumn, idColumn)
    ensures dirs == CombinedDirections(orderColumn, idColumn, ascOrDesc)
  {
    cols, dirs := orderColumn, ascOrDesc;
    var lastAscOrDesc := ascOrDesc[|ascOrDesc| - 1];
    for k := 0 to |idColumn|
      invariant cols == orderColumn + Appended(orderColumn, idColumn[..k])
      invariant dirs == ascOrDesc + seq(|cols| - |orderColumn|, _ => lastAscOrDesc)
    {
      assert idColumn[..k + 1][..k] == idColumn[..k];
      if !IdContains(orderColumn, idColumn[k]) {
        cols := cols + [idColumn[k]];
        dirs := dirs + [lastAscOrDesc];
      }
    }
    assert idColumn[..|idColumn|] == idColumn;
  }
}
