/**
 * The cursor codec of src/orm-connectors/knex/custom-pagination.js: each
 * cell is JSON-stringified and percent-encoded, the fields are joined
 * with '/', and the joined text is base64-encoded. A percent-encoded field
 * never contains '/', so splitting on '/' recovers the fields.
 */
module CursorCodec {
  import opened Wrappers
  import opened Values
  import Json
  import PercentEncoding
  import Base64

  const SeparationToken: char := '/'

  /** Which library call rejected a cursor. */
  datatype DecodeError = InvalidBase64 | InvalidPercentEncoding | InvalidJson

  /** An edge of the connection: a node and the cursor that points at it. */
  datatype Edge = Edge(cursor: string, node: Row)

  predicate IsAscii(s: string) {
    forall i :: 0 <= i < |s| ==> (s[i] as int) < 128
  }

  /** One field: JSON text, percent-encoded. */
  function EncodeField(v: Option<Value>): (f: string)
    ensures IsAscii(f) && SeparationToken !in f
  {
    var f := PercentEncoding.EncodeURIComponent(Json.Stringify(v));
    assert forall i :: 0 <= i < |f| ==> PercentEncoding.SafeChar(f[i]);
    f
  }

  /** One field decoded: decodeURIComponent, then JSON.parse. */
  function DecodeField(f: string): Result<Option<Value>, DecodeError> {
    match PercentEncoding.DecodeURIComponent(f)
    case None => Failure(InvalidPercentEncoding)
    case Some(text) =>
      match Json.Parse(text)
      case None => Failure(InvalidJson)
      case Some(v) => Success(v)
  }

  lemma DecodeEncodeField(v: Option<Value>)
    ensures DecodeField(EncodeField(v)) == Success(v)
  {
    PercentEncoding.DecodeEncode(Json.Stringify(v));
    Json.ParseStringify(v);
  }

  /** The fields of a tuple of cells, in order. */
  function EncodedFields(vs: seq<Option<Value>>): (fs: seq<string>)
    ensures |fs| == |vs|
    ensures forall i :: 0 <= i < |vs| ==> fs[i] == EncodeField(vs[i])
    decreases |vs|
  {
    if |vs| == 0 then []
    else
      var n := |vs| - 1;
      PrefixStep(vs, n);
      EncodedFields(vs[..n]) + [EncodeField(vs[n])]
  }

  /** Fields joined with a separator before every field but the first. */
  function Join(fields: seq<string>): string
    decreases |fields|
  {
    if |fields| == 0 then ""
    else Join(fields[..|fields| - 1]) + (if |fields| > 1 then [SeparationToken] else "") + fields[|fields| - 1]
  }

  /** String.prototype.split on the separator: n separators give n + 1 pieces. */
  function Split(s: string): (r: seq<string>)
    ensures |r| >= 1
    decreases |s|
  {
    if |s| == 0 then [""]
    else
      var init := Split(s[..|s| - 1]);
      var c := s[|s| - 1];
      if c == SeparationToken then init + [""]
      else init[..|init| - 1] + [init[|init| - 1] + [c]]
  }

  /** No piece of a split holds the separator. */
  lemma {:induction false} SplitPiecesClean(s: string)
    ensures forall i :: 0 <= i < |Split(s)| ==> SeparationToken !in Split(s)[i]
    decreases |s|
  {
    if |s| > 0 {
      var x, c := s[..|s| - 1], s[|s| - 1];
      SplitPiecesClean(x);
      var init := Split(x);
      if c != SeparationToken {
        var r := init[..|init| - 1] + [init[|init| - 1] + [c]];
        assert Split(s) == r;
        assert forall i :: 0 <= i < |r| - 1 ==> r[i] == init[i];
      }
    }
  }

  /** Joining the pieces of a split gives back the text: split loses nothing but the separators. */
  lemma {:induction false} JoinSplit(s: string)
    ensures Join(Split(s)) == s
    decreases |s|
  {
    if |s| > 0 {
      var x, c := s[..|s| - 1], s[|s| - 1];
      assert s == x + [c];
      JoinSplit(x);
      JoinSplitStep(x, c);
    }
  }

  lemma JoinSplitStep(x: string, c: char)
    requires Join(Split(x)) == x
    ensures Join(Split(x + [c])) == x + [c]
  {
    var s := x + [c];
    assert s[..|s| - 1] == x && s[|s| - 1] == c;
    if c == SeparationToken {
      assert Split(s) == Split(x) + [""];
      JoinLast(Split(x), "");
    } else {
      JoinSplitExtend(x, c, Split(x));
    }
  }

  /** A character other than the separator lands at the end of the last piece. */
  lemma JoinSplitExtend(x: string, c: char, init: seq<string>)
    requires init == Split(x) && Join(init) == x && c != SeparationToken
    ensures Join(Split(x + [c])) == x + [c]
  {
    var s := x + [c];
    assert s[..|s| - 1] == x && s[|s| - 1] == c;
    var p, last := init[..|init| - 1], init[|init| - 1];
    assert Split(s) == p + [last + [c]];
    assert init == p + [last];
    JoinLast(p, last);
    JoinLast(p, last + [c]);
  }

  /** Join, one field appended. */
  lemma JoinLast(p: seq<string>, f: string)
    ensures Join(p + [f]) == Join(p) + (if |p| > 0 then [SeparationToken] else "") + f
  {
    assert (p + [f])[..|p|] == p;
  }

  /** A last character other than the separator extends the last piece. */
  lemma SplitLastChar(s: string)
    requires |s| > 0 && s[|s| - 1] != SeparationToken
    ensures var p := Split(s[..|s| - 1]); Split(s) == p[..|p| - 1] + [p[|p| - 1] + [s[|s| - 1]]]
  {
  }

  lemma DropLastOfAppend(x: string, g: string, c: char)
    ensures var s := x + (g + [c]); |s| > 0 && s[..|s| - 1] == x + g && s[|s| - 1] == c
  {
  }

  lemma ExtendLastPiece(p: seq<string>, q: seq<string>, g: string, c: char)
    requires |p| >= 1 && q == p[..|p| - 1] + [p[|p| - 1] + g]
    ensures q[..|q| - 1] + [q[|q| - 1] + [c]] == p[..|p| - 1] + [p[|p| - 1] + (g + [c])]
  {
    var last := p[|p| - 1];
    assert q[..|q| - 1] == p[..|p| - 1] && q[|q| - 1] == last + g;
    assert (last + g) + [c] == last + (g + [c]);
  }

  /** Appending separator-free text extends the last piece. */
  lemma {:induction false} SplitExtendsLast(x: string, f: string)
    requires SeparationToken !in f
    ensures var p := Split(x); Split(x + f) == p[..|p| - 1] + [p[|p| - 1] + f]
    decreases |f|
  {
    var p := Split(x);
    if |f| == 0 {
      assert x + f == x;
      assert p[|p| - 1] + f == p[|p| - 1];
      assert p[..|p| - 1] + [p[|p| - 1]] == p;
    } else {
      var g, c := f[..|f| - 1], f[|f| - 1];
      assert c in f && SeparationToken !in g;
      SplitExtendsLast(x, g);
      SplitExtendsLastStep(x, g, c);
      assert g + [c] == f;
    }
  }

  lemma SplitExtendsLastStep(x: string, g: string, c: char)
    requires c != SeparationToken
    requires var p := Split(x); Split(x + g) == p[..|p| - 1] + [p[|p| - 1] + g]
    ensures var p := Split(x); Split(x + (g + [c])) == p[..|p| - 1] + [p[|p| - 1] + (g + [c])]
  {
    DropLastOfAppend(x, g, c);
    SplitLastChar(x + (g + [c]));
    ExtendLastPiece(Split(x), Split(x + g), g, c);
  }

  lemma {:induction false} SplitJoin(fields: seq<string>)
    requires |fields| >= 1
    requires forall i :: 0 <= i < |fields| ==> SeparationToken !in fields[i]
    ensures Split(Join(fields)) == fields
    decreases |fields|
  {
    var n := |fields|;
    var last := fields[n - 1];
    if n == 1 {
      SplitExtendsLast("", last);
      assert "" + last == last;
      assert Join(fields) == last;
    } else {
      var init := fields[..n - 1];
      SplitJoin(init);
      var x := Join(init) + [SeparationToken];
      assert x[..|x| - 1] == Join(init);
      assert Split(x) == init + [""];
      assert (init + [""])[..n - 1] == init;
      assert "" + last == last;
      SplitExtendsLast(x, last);
      assert Join(fields) == x + last;
      assert init + [last] == fields;
    }
  }

  /** The decoded cells of the pieces of a cursor; the first failure wins. */
  function DecodeFields(fs: seq<string>): Result<seq<Option<Value>>, DecodeError>
    decreases |fs|
  {
    if |fs| == 0 then Success([])
    else
      match DecodeField(fs[0])
      case Failure(e) => Failure(e)
      case Success(v) =>
        match DecodeFields(fs[1..])
        case Failure(e) => Failure(e)
        case Success(rest) => Success([v] + rest)
  }

  /** The pieces decode exactly when each of them does, and then cell i is piece i decoded. */
  lemma {:induction false} DecodeFieldsSpec(fs: seq<string>)
    ensures DecodeFields(fs).Success? <==> forall i :: 0 <= i < |fs| ==> DecodeField(fs[i]).Success?
    ensures DecodeFields(fs).Success? ==> |DecodeFields(fs).value| == |fs|
    ensures DecodeFields(fs).Success? ==>
      forall i :: 0 <= i < |fs| ==> DecodeField(fs[i]) == Success(DecodeFields(fs).value[i])
    decreases |fs|
  {
    if |fs| > 0 {
      DecodeFieldsSpec(fs[1..]);
      assert forall i :: 1 <= i < |fs| ==> fs[i] == fs[1..][i - 1];
    }
  }

  lemma {:induction false} DecodeEncodedFields(vs: seq<Option<Value>>)
    ensures DecodeFields(EncodedFields(vs)) == Success(vs)
    decreases |vs|
  {
    if |vs| > 0 {
      DecodeEncodeField(vs[0]);
      EncodedFieldsTail(vs);
      DecodeEncodedFields(vs[1..]);
      assert [vs[0]] + vs[1..] == vs;
    }
  }

  lemma EncodedFieldsTail(vs: seq<Option<Value>>)
    requires |vs| > 0
    ensures EncodedFields(vs)[1..] == EncodedFields(vs[1..])
  {
    var fs, tail := EncodedFields(vs), EncodedFields(vs[1..]);
    forall i | 0 <= i < |tail| ensures fs[1..][i] == tail[i] {
      assert vs[1..][i] == vs[i + 1];
    }
  }

  /** The text of a cursor before it is base64-wrapped. */
  function CursorText(vs: seq<Option<Value>>): string {
    Join(EncodedFields(vs))
  }

  lemma {:induction false} JoinIsAscii(fields: seq<string>)
    requires forall i :: 0 <= i < |fields| ==> IsAscii(fields[i])
    ensures IsAscii(Join(fields))
    decreases |fields|
  {
    if |fields| > 0 {
      JoinIsAscii(fields[..|fields| - 1]);
    }
  }

  /** The cursor of a tuple of cells: the joined fields, base64-encoded. */
  function CursorOf(vs: seq<Option<Value>>): string {
    JoinIsAscii(EncodedFields(vs));
    Base64.EncodeLatin1(CursorText(vs))
  }

  /** getDataFromCursor: base64-decode, split on '/', decode each piece. */
  function GetDataFromCursor(cursor: string): Result<seq<Option<Value>>, DecodeError> {
    match Base64.Decode(cursor)
    case None => Failure(InvalidBase64)
    case Some(text) => DecodeFields(Split(text))
  }

  /**
   * A cursor is read exactly when it is base-64 text whose pieces all
   * decode, and then it yields one cell per piece, in order.
   */
  lemma GetDataFromCursorSpec(cursor: string)
    ensures GetDataFromCursor(cursor).Success? <==>
      && Base64.Decode(cursor).Some?
      && forall i :: 0 <= i < |Split(Base64.Decode(cursor).value)| ==> DecodeField(Split(Base64.Decode(cursor).value)[i]).Success?
    ensures GetDataFromCursor(cursor).Success? ==>
      && |GetDataFromCursor(cursor).value| == |Split(Base64.Decode(cursor).value)|
      && forall i :: 0 <= i < |Split(Base64.Decode(cursor).value)| ==>
           DecodeField(Split(Base64.Decode(cursor).value)[i]) == Success(GetDataFromCursor(cursor).value[i])
  {
    match Base64.Decode(cursor)
    case None =>
    case Some(text) =>
      var pieces := Split(text);
      assert GetDataFromCursor(cursor) == DecodeFields(pieces);
      DecodeFieldsSpec(pieces);
      assert pieces == Split(Base64.Decode(cursor).value);
  }

  /** Every non-empty tuple of cells survives the trip through a cursor. */
  lemma GetDataFromCursorOf(vs: seq<Option<Value>>)
    requires |vs| >= 1
    ensures GetDataFromCursor(CursorOf(vs)) == Success(vs)
  {
    var fields := EncodedFields(vs);
    JoinIsAscii(fields);
    Base64.DecodeEncode(CursorText(vs));
    SplitJoin(fields);
    DecodeEncodedFields(vs);
  }

  /** Distinct tuples never share a cursor. */
  lemma CursorOfInjective(a: seq<Option<Value>>, b: seq<Option<Value>>)
    requires |a| >= 1 && |b| >= 1 && a != b
    ensures CursorOf(a) != CursorOf(b)
  {
    GetDataFromCursorOf(a);
    GetDataFromCursorOf(b);
  }

  /** A cursor is never the empty text, which the builder would take for no cursor at all. */
  lemma CursorOfNonEmpty(vs: seq<Option<Value>>)
    requires |vs| >= 1
    ensures CursorOf(vs) != ""
  {
    GetDataFromCursorOf(vs);
    EmptyCursorRejected();
  }

  /** The empty text is no cursor: its one field is not JSON. */
  lemma EmptyCursorRejected()
    ensures GetDataFromCursor("").Failure?
  {
    assert Base64.Decode("") == Some("");
    assert Split("") == [""];
    assert PercentEncoding.DecodeURIComponent("") == Some("");
    assert Json.Parse("") == None;
    assert DecodeField("").Failure?;
    assert GetDataFromCursor("").Failure?;
  }

  /**
   * The edge cursor as custom-pagination.js:47-51 builds it: the joined
   * fields without the base64 wrap that getDataFromCursor undoes.
   */
  function CursorAsWritten(vs: seq<Option<Value>>): (r: string)
    ensures IsAscii(r)
    ensures |vs| >= 1 ==> Split(r) == EncodedFields(vs)
  {
    var fields := EncodedFields(vs);
    JoinIsAscii(fields);
    assert |vs| >= 1 ==> Split(CursorText(vs)) == fields by {
      if |vs| >= 1 {
        SplitJoin(fields);
      }
    }
    CursorText(vs)
  }

  /** The cursor of a node whose only ordering cell is 1 is "1", which base64-decoding refuses. */
  lemma CursorAsWrittenIsRejected()
    ensures CursorAsWritten([Some(Num(1))]) == "1"
    ensures GetDataFromCursor(CursorAsWritten([Some(Num(1))])).Failure?
  {
    CursorTextOfOne();
    assert GetDataFromCursor("1").Failure?;
  }

  lemma CursorTextOfOne()
    ensures CursorText([Some(Num(1))]) == "1"
  {
    assert Json.Digits(1) == "1";
    assert Json.Stringify(Some(Num(1))) == "1";
    assert PercentEncoding.EncodeChar('1') == "1";
    assert PercentEncoding.EncodeURIComponent("1") == "1";
    assert EncodedFields([Some(Num(1))]) == ["1"];
    assert Join(["1"]) == "1" by { assert ["1"][..0] == []; }
  }

  lemma JoinNextField(vs: seq<Option<Value>>, i: nat)
    requires i < |vs|
    ensures Join(EncodedFields(vs[..i + 1]))
      == Join(EncodedFields(vs[..i])) + (if i > 0 then [SeparationToken] else "") + EncodeField(vs[i])
  {
    assert vs[..i + 1][..i] == vs[..i];
    var fs := EncodedFields(vs[..i + 1]);
    assert fs[..i] == EncodedFields(vs[..i]);
  }

  /** The cursor of one node, its fields joined one column at a time, then base64-wrapped. */
  method NodeCursor(node: Row, cols: seq<Column>) returns (cursor: string)
    ensures cursor == CursorOf(RowValues(node, cols))
  {
    ghost var vs := RowValues(node, cols);
    var text := "";
    for i := 0 to |cols|
      invariant text == Join(EncodedFields(vs[..i]))
    {
      JoinNextField(vs, i);
      text := text + (if i > 0 then [SeparationToken] else "") + EncodeField(Cell(node, cols[i]));
    }
    WholePrefix(vs);
    CursorOfText(vs, text);
    cursor := Base64.EncodeLatin1(text);
  }

  lemma WholePrefix<T>(s: seq<T>)
    ensures s[..|s|] == s
  {
  }

  /** The cursor of a tuple is the base64 wrap of its joined fields. */
  lemma CursorOfText(vs: seq<Option<Value>>, text: string)
    requires text == Join(EncodedFields(vs))
    ensures Base64.IsLatin1(text) && CursorOf(vs) == Base64.EncodeLatin1(text)
  {
    JoinIsAscii(EncodedFields(vs));
  }

  /** One edge per node, in order, carrying the cursor of the node's cells at the given columns. */
  function EdgesOf(nodes: seq<Row>, cols: seq<Column>): (edges: seq<Edge>)
    ensures |edges| == |nodes|
    ensures forall i :: 0 <= i < |nodes| ==> edges[i] == Edge(CursorOf(RowValues(nodes[i], cols)), nodes[i])
    decreases |nodes|
  {
    if |nodes| == 0 then []
    else
      var n := |nodes| - 1;
      PrefixStep(nodes, n);
      EdgesOf(nodes[..n], cols) + [Edge(CursorOf(RowValues(nodes[n], cols)), nodes[n])]
  }

  lemma PrefixStep<T>(s: seq<T>, k: nat)
    requires k < |s|
    ensures |s[..k + 1]| == k + 1 && s[..k + 1][..k] == s[..k] && s[..k + 1][k] == s[k]
    ensures forall i :: 0 <= i < k ==> s[..k][i] == s[i]
  {
  }

  /** Every edge's cursor decodes back to its node's cells. */
  lemma EdgesOfDecode(nodes: seq<Row>, cols: seq<Column>)
    requires |cols| >= 1
    ensures var edges := EdgesOf(nodes, cols);
      |edges| == |nodes| &&
      forall i :: 0 <= i < |nodes| ==>
        && edges[i].node == nodes[i] && edges[i].cursor != ""
        && GetDataFromCursor(edges[i].cursor) == Success(RowValues(nodes[i], cols))
  {
    forall i | 0 <= i < |nodes|
      ensures EdgesOf(nodes, cols)[i].cursor != ""
      ensures GetDataFromCursor(EdgesOf(nodes, cols)[i].cursor) == Success(RowValues(nodes[i], cols))
    {
      GetDataFromCursorOf(RowValues(nodes[i], cols));
      CursorOfNonEmpty(RowValues(nodes[i], cols));
    }
  }

  lemma EdgesOfNext(nodes: seq<Row>, cols: seq<Column>, k: nat, cursor: string)
    requires k < |nodes| && cursor == CursorOf(RowValues(nodes[k], cols))
    ensures EdgesOf(nodes[..k + 1], cols) == EdgesOf(nodes[..k], cols) + [Edge(cursor, nodes[k])]
  {
    PrefixStep(nodes, k);
  }

  /** convertNodesToEdges: the cursor of each node, built in turn. */
  method ConvertNodesToEdges(nodes: seq<Row>, cols: seq<Column>) returns (edges: seq<Edge>)
    ensures edges == EdgesOf(nodes, cols)
  {
    edges := [];
    for k := 0 to |nodes|
      invariant edges == EdgesOf(nodes[..k], cols)
    {
      var cursor := NodeCursor(nodes[k], cols);
      EdgesOfNext(nodes, cols, k, cursor);
      edges := edges + [Edge(cursor, nodes[k])];
    }
    assert nodes[..|nodes|] == nodes;
  }
}
