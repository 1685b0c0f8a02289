/**
 * Column values, rows and the order the database sorts them in.
 * A cell is an Option<Value>: None stands for SQL NULL (and for a column
 * the row does not have), which the pagination code treats as the least
 * value of every column.
 */
module Values {
  import opened Wrappers

  /** A non-NULL column value: a whole number or a text. */
  datatype Value = Num(n: int) | Text(s: string)

  /** Outcome of a three-way comparison. */
  datatype Ordering = Less | Equal | Greater

  /** Sort direction of one column. */
  datatype Direction = Asc | Desc

  type Column = string

  /** A row maps column names to cells. */
  type Row = map<Column, Option<Value>>

  /** The cell of column c; a column the row lacks reads as NULL. */
  function Cell(row: Row, c: Column): Option<Value> {
    if c in row then row[c] else None
  }

  /** The cells of a row at the given columns, in column order. */
  function RowValues(row: Row, cols: seq<Column>): seq<Option<Value>> {
    seq(|cols|, i requires 0 <= i < |cols| => Cell(row, cols[i]))
  }

  function Flip(o: Ordering): Ordering {
    match o
    case Less => Greater
    case Equal => Equal
    case Greater => Less
  }

  /** Texts compare code point by code point; a proper prefix comes first. */
  function TextCompare(a: string, b: string): (r: Ordering)
    ensures r == Equal <==> a == b
    decreases |a|
  {
    if |a| == 0 then (if |b| == 0 then Equal else Less)
    else if |b| == 0 then Greater
    else if a[0] < b[0] then Less
    else if b[0] < a[0] then Greater
    else
      var r := TextCompare(a[1..], b[1..]);
      assert r == Equal <==> a == b by {
        assert a == [a[0]] + a[1..] && b == [b[0]] + b[1..];
      }
      r
  }

  lemma {:induction false} TextCompareFlip(a: string, b: string)
    ensures TextCompare(b, a) == Flip(TextCompare(a, b))
    decreases |a|
  {
    if |a| > 0 && |b| > 0 && a[0] == b[0] {
      TextCompareFlip(a[1..], b[1..]);
    }
  }

  lemma {:induction false} TextCompareTransitive(a: string, b: string, c: string)
    requires TextCompare(a, b) == Less && TextCompare(b, c) == Less
    ensures TextCompare(a, c) == Less
    decreases |a|
  {
    if |a| > 0 && a[0] == b[0] && b[0] == c[0] {
      TextCompareTransitive(a[1..], b[1..], c[1..]);
    }
  }

  /** Numbers sort before texts; within a kind, the natural order. */
  function ValueCompare(a: Value, b: Value): (r: Ordering)
    ensures r == Equal <==> a == b
  {
    match (a, b)
    case (Num(x), Num(y)) => if x < y then Less else if x == y then Equal else Greater
    case (Num(_), Text(_)) => Less
    case (Text(_), Num(_)) => Greater
    case (Text(x), Text(y)) => TextCompare(x, y)
  }

  /** NULL is the least cell (the source treats NULL "as 0"). */
  function CellCompare(a: Option<Value>, b: Option<Value>): (r: Ordering)
    ensures r == Equal <==> a == b
  {
    match (a, b)
    case (None, None) => Equal
    case (None, Some(_)) => Less
    case (Some(_), None) => Greater
    case (Some(x), Some(y)) => ValueCompare(x, y)
  }

  lemma CellCompareFlip(a: Option<Value>, b: Option<Value>)
    ensures CellCompare(b, a) == Flip(CellCompare(a, b))
  {
    if a.Some? && b.Some? && a.value.Text? && b.value.Text? {
      TextCompareFlip(a.value.s, b.value.s);
    }
  }

  lemma CellCompareTransitive(a: Option<Value>, b: Option<Value>, c: Option<Value>)
    requires CellCompare(a, b) == Less && CellCompare(b, c) == Less
    ensures CellCompare(a, c) == Less
  {
    if a.Some? && a.value.Text? && b.Some? && b.value.Text? && c.Some? && c.value.Text? {
      TextCompareTransitive(a.value.s, b.value.s, c.value.s);
    }
  }

  /** Comparison in display order: a Desc column reverses the cell order. */
  function DirCompare(a: Option<Value>, b: Option<Value>, d: Direction): Ordering {
    if d == Asc then CellCompare(a, b) else CellCompare(b, a)
  }

  lemma DirCompareFlip(a: Option<Value>, b: Option<Value>, d: Direction)
    ensures DirCompare(b, a, d) == Flip(DirCompare(a, b, d))
  {
    CellCompareFlip(a, b);
  }

  lemma DirCompareTransitive(a: Option<Value>, b: Option<Value>, c: Option<Value>, d: Direction)
    requires DirCompare(a, b, d) == Less && DirCompare(b, c, d) == Less
    ensures DirCompare(a, c, d) == Less
  {
    if d == Asc { CellCompareTransitive(a, b, c); } else { CellCompareTransitive(c, b, a); }
  }
}
