/**
 * The range filter of buildRemoveNodesFromBeforeOrAfter: a disjunction
 * whose k-th term pins the combined columns before k to the cursor's
 * values and compares column k strictly past the cursor's value.
 *
 * Two rules for building a term are modelled.  AsWritten is the code's:
 * a NULL cursor value omits the term for a Desc column and asks for NOT
 * NULL otherwise, and a strict comparison never matches a NULL cell.
 * Corrected keys the NULL rule on the comparator and adds the NULL cells
 * a "less than" must also reach, so that the filter is exactly the strict
 * lexicographic order with NULL least.
 */
module RangeFilter {
  import opened Wrappers
  import opened Values
  import opened ColumnSet
  import opened RowOrder

  /**
   * The nodes a filter removes relative to the cursor row.  Before stands
   * for removeNodesBeforeAndIncluding, used for the `after` argument;
   * After for removeNodesAfterAndIncluding, used for `before`.
   */
  datatype Side = Before | After

  datatype Comparator = Gt | Lt

  /** One column condition: `is`, a strict comparison, or `not_null`. */
  datatype Cond = Is(cell: Option<Value>) | Compare(op: Comparator, bound: Value) | NotNull

  /** One AND-term of the OR: an object keyed by column name. */
  type Term = map<Column, Cond>

  datatype Rule = AsWritten | Corrected

  /** The position a kept row has relative to the cursor in display order. */
  function Target(side: Side): Ordering {
    if side == Before then Greater else Less
  }

  /** getComparator: the SQL comparison for column direction d. */
  function GetComparator(side: Side, d: Direction): (c: Comparator)
    ensures c.Gt? <==> (side.Before? <==> d.Asc?)
  {
    if side == After then (if d == Asc then Lt else Gt)
    else (if d == Asc then Gt else Lt)
  }

  /** The comparison on stored cells that a comparator asks for. */
  function Meaning(c: Comparator): Ordering {
    if c == Gt then Greater else Less
  }

  /**
   * getComparator picks the comparison that means "strictly past the
   * cursor in display order", and `before` always inverts `after`.
   */
  lemma ComparatorMeaning(side: Side, d: Direction, a: Option<Value>, b: Option<Value>)
    ensures DirCompare(a, b, d) == Target(side) <==> CellCompare(a, b) == Meaning(GetComparator(side, d))
    ensures GetComparator(Before, d) != GetComparator(After, d)
  {
    CellCompareFlip(a, b);
  }

  /** A cursor shorter than the column list reads as undefined, i.e. NULL. */
  function CursorAt(vs: seq<Option<Value>>, i: nat): Option<Value> {
    if i < |vs| then vs[i] else None
  }

  /** The cursor values padded to n columns. */
  function Pad(vs: seq<Option<Value>>, n: nat): seq<Option<Value>> {
    seq(n, i requires 0 <= i < n => CursorAt(vs, i))
  }

  /** The `is` conditions on the columns before k. */
  function Equalities(cols: seq<Column>, vs: seq<Option<Value>>, k: nat): Term
    requires k <= |cols|
  {
    if k == 0 then map[]
    else Equalities(cols, vs, k - 1)[cols[k - 1] := Is(CursorAt(vs, k - 1))]
  }

  /** Whether a NULL cursor value in a column of direction d drops the term. */
  function NullRuleOmits(rule: Rule, side: Side, d: Direction): bool {
    if rule == AsWritten then d == Desc else GetComparator(side, d) == Lt
  }

  /** The terms contributed by column k: none, one, or (corrected `lt`) two. */
  function TermAt(rule: Rule, side: Side, cols: seq<Column>, dirs: seq<Direction>, vs: seq<Option<Value>>, k: nat): seq<Term>
    requires k < |cols| == |dirs|
  {
    var eq := Equalities(cols, vs, k);
    match CursorAt(vs, k)
    case None => if NullRuleOmits(rule, side, dirs[k]) then [] else [eq[cols[k] := NotNull]]
    case Some(v) =>
      var comparator := GetComparator(side, dirs[k]);
      if rule == Corrected && comparator == Lt then [eq[cols[k] := Compare(Lt, v)], eq[cols[k] := Is(None)]]
      else [eq[cols[k] := Compare(comparator, v)]]
  }

  function TermsUpTo(rule: Rule, side: Side, cols: seq<Column>, dirs: seq<Direction>, vs: seq<Option<Value>>, k: nat): seq<Term>
    requires k <= |cols| == |dirs|
  {
    if k == 0 then [] else TermsUpTo(rule, side, cols, dirs, vs, k - 1) + TermAt(rule, side, cols, dirs, vs, k - 1)
  }

  /** The whole OR for a set of combined columns. */
  function FilterTerms(rule: Rule, side: Side, cols: seq<Column>, dirs: seq<Direction>, vs: seq<Option<Value>>): seq<Term>
    requires |cols| == |dirs|
  {
    TermsUpTo(rule, side, cols, dirs, vs, |cols|)
  }

  // Semantics of a filter on one row (SQL three-valued logic: a comparison
  // with NULL never holds).

  function CondHolds(cell: Option<Value>, cond: Cond): bool {
    match cond
    case Is(v) => cell == v
    case NotNull => cell.Some?
    case Compare(op, v) => cell.Some? && ValueCompare(cell.value, v) == Meaning(op)
  }

  predicate TermHolds(row: Row, t: Term) {
    forall c :: c in t ==> CondHolds(Cell(row, c), t[c])
  }

  /** An OR holds when one of its terms does; an empty OR holds for no row. */
  predicate FilterHolds(row: Row, terms: seq<Term>) {
    exists i :: 0 <= i < |terms| && TermHolds(row, terms[i])
  }

  /** The rows a filter keeps, in their order. */
  function Keep(rows: seq<Row>, terms: seq<Term>): (r: seq<Row>)
    ensures forall x :: x in r <==> x in rows && FilterHolds(x, terms)
    ensures |r| <= |rows|
    decreases |rows|
  {
    if |rows| == 0 then []
    else
      var rest := Keep(rows[1..], terms);
      assert forall x :: x in rows <==> x == rows[0] || x in rows[1..] by {
        assert rows == [rows[0]] + rows[1..];
      }
      if FilterHolds(rows[0], terms) then [rows[0]] + rest else rest
  }

  /**
   * The filter works row by row and keeps the order: filtering a
   * concatenation filters each part, and a single row is kept exactly
   * when the OR admits it.
   */
  lemma {:induction false} KeepAppend(a: seq<Row>, b: seq<Row>, terms: seq<Term>)
    ensures Keep(a + b, terms) == Keep(a, terms) + Keep(b, terms)
    decreases |a|
  {
    if |a| == 0 {
      assert a + b == b;
    } else {
      var ab := a + b;
      assert ab[0] == a[0] && ab[1..] == a[1..] + b;
      KeepAppend(a[1..], b, terms);
    }
  }

  lemma KeepSingle(x: Row, terms: seq<Term>)
    ensures Keep([x], terms) == if FilterHolds(x, terms) then [x] else []
  {
    assert [x][1..] == [];
  }

  /**
   * areAnyColumnsAggregates: the filter goes to HAVING as a whole when any
   * combined column is an aggregate, and to WHERE otherwise.
   */
  function AreAnyColumnsAggregates(cols: seq<Column>, isAggregateFn: Column -> bool): (r: bool)
    ensures r <==> exists i :: 0 <= i < |cols| && isAggregateFn(cols[i])
    decreases |cols|
  {
    if |cols| == 0 then false
    else
      var r := AreAnyColumnsAggregates(cols[..|cols| - 1], isAggregateFn) || isAggregateFn(cols[|cols| - 1]);
      assert r <==> exists i :: 0 <= i < |cols| && isAggregateFn(cols[i]) by {
        if exists i :: 0 <= i < |cols| && isAggregateFn(cols[i]) {
          var i :| 0 <= i < |cols| && isAggregateFn(cols[i]);
          if i < |cols| - 1 {
            assert cols[..|cols| - 1][i] == cols[i];
          }
        }
      }
      r
  }

  /** The OR of terms and where it is applied. */
  datatype FilterQuery = FilterQuery(or: seq<Term>, having: bool)

  /**
   * The filter construction loop: per combined column, the `is`
   * conditions on the columns before it, then the NULL rule or the
   * comparator on the column itself.
   */
  method BuildFilter(rule: Rule, side: Side, cols: seq<Column>, dirs: seq<Direction>, cursorValues: seq<Option<Value>>)
    returns (or: seq<Term>)
    requires |cols| == |dirs|
    ensures or == FilterTerms(rule, side, cols, dirs, cursorValues)
  {
    or := [];
    for index := 0 to |cols|
      invariant or == TermsUpTo(rule, side, cols, dirs, cursorValues, index)
    {
      var orderDirection := dirs[index];
      var currValue := CursorAt(cursorValues, index);
      var conditions: Term := map[];
      for i := 0 to index
        invariant conditions == Equalities(cols, cursorValues, i)
      {
        conditions := conditions[cols[i] := Is(CursorAt(cursorValues, i))];
      }
      var columnName := cols[index];
      var terms: seq<Term>;
      if currValue.None? {
        if NullRuleOmits(rule, side, orderDirection) {
          terms := [];
        } else {
          terms := [conditions[columnName := NotNull]];
        }
      } else {
        var comparator := GetComparator(side, orderDirection);
        if rule == Corrected && comparator == Lt {
          terms := [conditions[columnName := Compare(Lt, currValue.value)], conditions[columnName := Is(None)]];
        } else {
          terms := [conditions[columnName := Compare(comparator, currValue.value)]];
        }
      }
      or := or + terms;
    }
  }

  /**
   * executeFilterQuery: normalise the columns, build the OR over them and
   * decide between WHERE and HAVING.
   */
  method ExecuteFilterQuery(rule: Rule, side: Side, idColumn: seq<Column>, orderColumn: seq<Column>, ascOrDesc: seq<Direction>,
                            cursorValues: seq<Option<Value>>, isAggregateFn: Column -> bool)
    returns (q: FilterQuery)
    requires |ascOrDesc| == |orderColumn| >= 1
    ensures var cols := CombinedColumns(orderColumn, idColumn);
      && q.or == FilterTerms(rule, side, cols, CombinedDirections(orderColumn, idColumn, ascOrDesc), cursorValues)
      && (q.having <==> exists c :: c in cols && isAggregateFn(c))
  {
    var cols, dirs := CombineOrderColumnAndAscOrDesc(orderColumn, idColumn, ascOrDesc);
    CombinedColumnsSpec(orderColumn, idColumn, ascOrDesc);
    var or := BuildFilter(rule, side, cols, dirs, cursorValues);
    var having := AreAnyColumnsAggregates(cols, isAggregateFn);
    q := FilterQuery(or, having);
  }

  lemma {:induction false} EqualitiesContents(cols: seq<Column>, vs: seq<Option<Value>>, k: nat)
    requires k <= |cols| && Distinct(cols)
    ensures forall c :: c in Equalities(cols, vs, k) <==> c in cols[..k]
    ensures forall i :: 0 <= i < k ==> Equalities(cols, vs, k)[cols[i]] == Is(CursorAt(vs, i))
  {
    if k > 0 {
      EqualitiesContents(cols, vs, k - 1);
      PrefixMembers(cols, k);
      var m := Equalities(cols, vs, k - 1);
      assert Equalities(cols, vs, k) == m[cols[k - 1] := Is(CursorAt(vs, k - 1))];
      forall i | 0 <= i < k ensures Equalities(cols, vs, k)[cols[i]] == Is(CursorAt(vs, i)) {
        if i < k - 1 {
          assert cols[i] != cols[k - 1];
          assert m[cols[i]] == Is(CursorAt(vs, i));
        }
      }
    }
  }

  /** The first k columns are the first k - 1 and column k - 1. */
  lemma PrefixMembers(cols: seq<Column>, k: nat)
    requires 0 < k <= |cols|
    ensures forall c :: c in cols[..k] <==> c in cols[..k - 1] || c == cols[k - 1]
  {
    assert cols[..k] == cols[..k - 1] + [cols[k - 1]];
  }

  /** A term built on column k holds iff the columns before k match the cursor and column k meets x. */
  lemma TermHoldsAt(row: Row, cols: seq<Column>, vs: seq<Option<Value>>, k: nat, x: Cond)
    requires k < |cols| && Distinct(cols)
    ensures TermHolds(row, Equalities(cols, vs, k)[cols[k] := x])
        <==> RowValues(row, cols)[..k] == Pad(vs, |cols|)[..k] && CondHolds(Cell(row, cols[k]), x)
  {
    var t := Equalities(cols, vs, k)[cols[k] := x];
    var a, b := RowValues(row, cols), Pad(vs, |cols|);
    EqualitiesContents(cols, vs, k);
    if TermHolds(row, t) {
      forall i | 0 <= i < k ensures a[i] == b[i] {
        assert cols[i] in cols[..k];
        assert t[cols[i]] == Is(CursorAt(vs, i));
      }
      assert a[..k] == b[..k];
    }
    if a[..k] == b[..k] && CondHolds(Cell(row, cols[k]), x) {
      forall c | c in t ensures CondHolds(Cell(row, c), t[c]) {
        if c != cols[k] {
          var i :| 0 <= i < k && cols[..k][i] == c;
          assert a[..k][i] == b[..k][i];
        }
      }
    }
  }

  /** Column k of the corrected filter admits exactly the rows decided past the cursor at column k. */
  lemma CorrectedTermAt(side: Side, cols: seq<Column>, dirs: seq<Direction>, vs: seq<Option<Value>>, k: nat, row: Row)
    requires k < |cols| == |dirs| && Distinct(cols)
    ensures FilterHolds(row, TermAt(Corrected, side, cols, dirs, vs, k))
        <==> DecidedAt(RowValues(row, cols), Pad(vs, |cols|), dirs, k, Target(side))
  {
    var terms := TermAt(Corrected, side, cols, dirs, vs, k);
    var cell, cv := Cell(row, cols[k]), CursorAt(vs, k);
    var comparator := GetComparator(side, dirs[k]);
    var eq := Equalities(cols, vs, k);
    ComparatorMeaning(side, dirs[k], cell, cv);
    assert RowValues(row, cols)[k] == cell && Pad(vs, |cols|)[k] == cv;
    match cv
    case None =>
      if comparator == Gt {
        TermHoldsAt(row, cols, vs, k, NotNull);
        assert terms == [eq[cols[k] := NotNull]];
        assert FilterHolds(row, terms) <==> TermHolds(row, terms[0]);
        assert CellCompare(cell, cv) == Greater <==> cell.Some?;
      }
    case Some(v) =>
      TermHoldsAt(row, cols, vs, k, Compare(comparator, v));
      if comparator == Lt {
        TermHoldsAt(row, cols, vs, k, Is(None));
        assert terms == [eq[cols[k] := Compare(Lt, v)], eq[cols[k] := Is(None)]];
        if cell == None {
          assert TermHolds(row, terms[1]) <==> FilterHolds(row, terms);
        } else {
          assert TermHolds(row, terms[0]) <==> FilterHolds(row, terms);
        }
      } else {
        assert terms == [eq[cols[k] := Compare(comparator, v)]];
        assert FilterHolds(row, terms) <==> TermHolds(row, terms[0]);
      }
  }

  lemma FilterHoldsAppend(row: Row, a: seq<Term>, b: seq<Term>)
    ensures FilterHolds(row, a + b) <==> FilterHolds(row, a) || FilterHolds(row, b)
  {
    if FilterHolds(row, a + b) {
      var i :| 0 <= i < |a + b| && TermHolds(row, (a + b)[i]);
      if i >= |a| {
        assert b[i - |a|] == (a + b)[i];
      }
    }
    if FilterHolds(row, b) {
      var i :| 0 <= i < |b| && TermHolds(row, b[i]);
      assert (a + b)[|a| + i] == b[i];
    }
    if FilterHolds(row, a) {
      var i :| 0 <= i < |a| && TermHolds(row, a[i]);
      assert (a + b)[i] == a[i];
    }
  }

  /** The OR over the first k columns holds iff some column's terms do. */
  lemma {:induction false} FilterHoldsUpTo(rule: Rule, side: Side, cols: seq<Column>, dirs: seq<Direction>, vs: seq<Option<Value>>, k: nat, row: Row)
    requires k <= |cols| == |dirs|
    ensures FilterHolds(row, TermsUpTo(rule, side, cols, dirs, vs, k))
        <==> exists j :: 0 <= j < k && FilterHolds(row, TermAt(rule, side, cols, dirs, vs, j))
  {
    if k > 0 {
      FilterHoldsUpTo(rule, side, cols, dirs, vs, k - 1, row);
      FilterHoldsAppend(row, TermsUpTo(rule, side, cols, dirs, vs, k - 1), TermAt(rule, side, cols, dirs, vs, k - 1));
    }
  }

  /**
   * The corrected filter keeps a row exactly when its tuple on the combined
   * columns comes strictly after the cursor (side Before, the `after`
   * argument) or strictly before it (side After, the `before` argument) in
   * the lexicographic order of the column directions, NULL least.
   */
  lemma CorrectedFilterIsLexOrder(side: Side, cols: seq<Column>, dirs: seq<Direction>, vs: seq<Option<Value>>, row: Row)
    requires |cols| == |dirs| && Distinct(cols)
    ensures FilterHolds(row, FilterTerms(Corrected, side, cols, dirs, vs))
        <==> LexCompare(RowValues(row, cols), Pad(vs, |cols|), dirs) == Target(side)
  {
    var a, b := RowValues(row, cols), Pad(vs, |cols|);
    FilterHoldsUpTo(Corrected, side, cols, dirs, vs, |cols|, row);
    LexCompareDecided(a, b, dirs, Target(side));
    forall j | 0 <= j < |cols|
      ensures FilterHolds(row, TermAt(Corrected, side, cols, dirs, vs, j)) <==> DecidedAt(a, b, dirs, j, Target(side))
    {
      CorrectedTermAt(side, cols, dirs, vs, j, row);
    }
  }

  /**
   * Where the code's terms for column k admit the same rows as the
   * corrected ones: a NULL cursor value is handled right only for the
   * `after` argument or a NULL cell, and a `lt` comparison is right only
   * for a non-NULL cell.
   */
  predicate AsWrittenAgreesAt(side: Side, row: Row, cols: seq<Column>, dirs: seq<Direction>, vs: seq<Option<Value>>, k: nat)
    requires k < |cols| == |dirs|
  {
    match CursorAt(vs, k)
    case None => side == Before || Cell(row, cols[k]).None?
    case Some(_) => GetComparator(side, dirs[k]) == Lt ==> Cell(row, cols[k]).Some?
  }

  lemma AsWrittenTermAt(side: Side, cols: seq<Column>, dirs: seq<Direction>, vs: seq<Option<Value>>, k: nat, row: Row)
    requires k < |cols| == |dirs| && Distinct(cols)
    ensures side == Before && FilterHolds(row, TermAt(AsWritten, side, cols, dirs, vs, k))
        ==> FilterHolds(row, TermAt(Corrected, side, cols, dirs, vs, k))
    ensures AsWrittenAgreesAt(side, row, cols, dirs, vs, k)
        ==> (FilterHolds(row, TermAt(AsWritten, side, cols, dirs, vs, k)) <==> FilterHolds(row, TermAt(Corrected, side, cols, dirs, vs, k)))
  {
    var written, corrected := TermAt(AsWritten, side, cols, dirs, vs, k), TermAt(Corrected, side, cols, dirs, vs, k);
    var eq := Equalities(cols, vs, k);
    var comparator := GetComparator(side, dirs[k]);
    match CursorAt(vs, k)
    case None =>
      TermHoldsAt(row, cols, vs, k, NotNull);
      if written != [] {
        assert written == [eq[cols[k] := NotNull]];
      }
      if corrected != [] {
        assert corrected == [eq[cols[k] := NotNull]];
      }
    case Some(v) =>
      TermHoldsAt(row, cols, vs, k, Compare(comparator, v));
      TermHoldsAt(row, cols, vs, k, Is(None));
      assert written == [eq[cols[k] := Compare(comparator, v)]];
      if comparator == Lt {
        assert corrected == [eq[cols[k] := Compare(Lt, v)], eq[cols[k] := Is(None)]];
        if FilterHolds(row, written) {
          assert TermHolds(row, corrected[0]);
        }
        if FilterHolds(row, corrected) && Cell(row, cols[k]).Some? {
          assert TermHolds(row, written[0]);
        }
      } else {
        assert corrected == written;
      }
  }

  /**
   * The code's filter is the strict lexicographic order for every row on
   * which each column's terms agree with the corrected ones.
   */
  lemma AsWrittenFilterIsLexOrder(side: Side, cols: seq<Column>, dirs: seq<Direction>, vs: seq<Option<Value>>, row: Row)
    requires |cols| == |dirs| && Distinct(cols)
    requires forall k :: 0 <= k < |cols| ==> AsWrittenAgreesAt(side, row, cols, dirs, vs, k)
    ensures FilterHolds(row, FilterTerms(AsWritten, side, cols, dirs, vs))
        <==> LexCompare(RowValues(row, cols), Pad(vs, |cols|), dirs) == Target(side)
  {
    FilterHoldsUpTo(AsWritten, side, cols, dirs, vs, |cols|, row);
    FilterHoldsUpTo(Corrected, side, cols, dirs, vs, |cols|, row);
    forall j | 0 <= j < |cols|
      ensures FilterHolds(row, TermAt(AsWritten, side, cols, dirs, vs, j)) <==> FilterHolds(row, TermAt(Corrected, side, cols, dirs, vs, j))
    {
      AsWrittenTermAt(side, cols, dirs, vs, j, row);
    }
    CorrectedFilterIsLexOrder(side, cols, dirs, vs, row);
  }

  /** For the `after` argument the code's filter never admits a row at or before the cursor. */
  lemma AsWrittenAfterIsSound(cols: seq<Column>, dirs: seq<Direction>, vs: seq<Option<Value>>, row: Row)
    requires |cols| == |dirs| && Distinct(cols)
    requires FilterHolds(row, FilterTerms(AsWritten, Before, cols, dirs, vs))
    ensures LexCompare(RowValues(row, cols), Pad(vs, |cols|), dirs) == Greater
  {
    FilterHoldsUpTo(AsWritten, Before, cols, dirs, vs, |cols|, row);
    var j :| 0 <= j < |cols| && FilterHolds(row, TermAt(AsWritten, Before, cols, dirs, vs, j));
    AsWrittenTermAt(Before, cols, dirs, vs, j, row);
    FilterHoldsUpTo(Corrected, Before, cols, dirs, vs, |cols|, row);
    CorrectedFilterIsLexOrder(Before, cols, dirs, vs, row);
  }

  /** For the `after` argument the code is exact on rows without NULL in a Desc column. */
  lemma AsWrittenAfterWithoutNulls(cols: seq<Column>, dirs: seq<Direction>, vs: seq<Option<Value>>, row: Row)
    requires |cols| == |dirs| && Distinct(cols)
    requires forall k :: 0 <= k < |cols| && dirs[k] == Desc ==> Cell(row, cols[k]).Some?
    ensures FilterHolds(row, FilterTerms(AsWritten, Before, cols, dirs, vs))
        <==> LexCompare(RowValues(row, cols), Pad(vs, |cols|), dirs) == Greater
  {
    assert forall k :: 0 <= k < |cols| ==> AsWrittenAgreesAt(Before, row, cols, dirs, vs, k);
    AsWrittenFilterIsLexOrder(Before, cols, dirs, vs, row);
  }

  /**
   * For the `before` argument the code is exact when the cursor has no
   * NULL and the row has no NULL in an Asc column.
   */
  lemma AsWrittenBeforeWithoutNulls(cols: seq<Column>, dirs: seq<Direction>, vs: seq<Option<Value>>, row: Row)
    requires |cols| == |dirs| && Distinct(cols)
    requires forall k :: 0 <= k < |cols| ==> CursorAt(vs, k).Some?
    requires forall k :: 0 <= k < |cols| && dirs[k] == Asc ==> Cell(row, cols[k]).Some?
    ensures FilterHolds(row, FilterTerms(AsWritten, After, cols, dirs, vs))
        <==> LexCompare(RowValues(row, cols), Pad(vs, |cols|), dirs) == Less
  {
    assert forall k :: 0 <= k < |cols| ==> AsWrittenAgreesAt(After, row, cols, dirs, vs, k);
    AsWrittenFilterIsLexOrder(After, cols, dirs, vs, row);
  }

  /**
   * For the `before` argument, a NULL cursor value in an Asc column makes
   * the code ask for NOT NULL, which admits a row sorting after the cursor.
   */
  lemma AsWrittenBeforeAdmitsLaterRow()
    ensures var cols, dirs, vs := ["score", "id"], [Asc, Asc], [None, Some(Num(5))];
      var row := map["score" := Some(Num(1)), "id" := Some(Num(3))];
      && LexCompare(RowValues(row, cols), Pad(vs, 2), dirs) == Greater
      && FilterHolds(row, FilterTerms(AsWritten, After, cols, dirs, vs))
      && !FilterHolds(row, FilterTerms(Corrected, After, cols, dirs, vs))
  {
    var cols, dirs, vs := ["score", "id"], [Asc, Asc], [None, Some(Num(5))];
    var row := map["score" := Some(Num(1)), "id" := Some(Num(3))];
    assert RowValues(row, cols) == [Some(Num(1)), Some(Num(3))];
    assert Pad(vs, 2) == [None, Some(Num(5))];
    var terms := FilterTerms(AsWritten, After, cols, dirs, vs);
    assert TermAt(AsWritten, After, cols, dirs, vs, 0) == [map["score" := NotNull]];
    assert terms[0] == map["score" := NotNull];
    assert TermHolds(row, terms[0]);
    CorrectedFilterIsLexOrder(After, cols, dirs, vs, row);
  }

  /**
   * For the `after` argument on a Desc column, the `lt` comparison never
   * matches a NULL cell, so a row sorting after the cursor is dropped.
   */
  lemma AsWrittenAfterDropsNullRow()
    ensures var cols, dirs, vs := ["score", "id"], [Desc, Desc], [Some(Num(5)), Some(Num(9))];
      var row := map["score" := None, "id" := Some(Num(1))];
      && LexCompare(RowValues(row, cols), Pad(vs, 2), dirs) == Greater
      && !FilterHolds(row, FilterTerms(AsWritten, Before, cols, dirs, vs))
      && FilterHolds(row, FilterTerms(Corrected, Before, cols, dirs, vs))
  {
    var cols, dirs, vs := ["score", "id"], [Desc, Desc], [Some(Num(5)), Some(Num(9))];
    var row := map["score" := None, "id" := Some(Num(1))];
    assert RowValues(row, cols) == [None, Some(Num(1))];
    assert Pad(vs, 2) == [Some(Num(5)), Some(Num(9))];
    var t0 := map["score" := Compare(Lt, Num(5))];
    var t1 := map["score" := Is(Some(Num(5)))]["id" := Compare(Lt, Num(9))];
    assert TermAt(AsWritten, Before, cols, dirs, vs, 0) == [t0];
    assert TermAt(AsWritten, Before, cols, dirs, vs, 1) == [t1];
    assert FilterTerms(AsWritten, Before, cols, dirs, vs) == [t0, t1];
    assert !TermHolds(row, t0) by { assert "score" in t0; }
    assert !TermHolds(row, t1) by { assert "score" in t1; }
    CorrectedFilterIsLexOrder(Before, cols, dirs, vs, row);
  }
}
