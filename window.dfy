/**
 * The window operations of the knex connector: `limit` from the front,
 * the last n rows, and the over-fetch length test.
 */
module Window {

  function Min(a: nat, b: nat): nat {
    if a < b then a else b
  }

  /** `limit(n)`: the first n rows, or all of them when there are fewer. */
  function Limit<T>(s: seq<T>, n: nat): (r: seq<T>)
    ensures |r| == Min(n, |s|)
    ensures r == s[..|r|]
  {
    if n < |s| then s[..n] else s
  }

  function Reverse<T>(s: seq<T>): (r: seq<T>)
    ensures |r| == |s|
    ensures forall i :: 0 <= i < |s| ==> r[i] == s[|s| - 1 - i]
    decreases |s|
  {
    if |s| == 0 then [] else Reverse(s[1..]) + [s[0]]
  }

  /** removeNodesFromEnd: keeps the first n rows (`[A, B, C, D]`, 3 gives `[A, B, C]`). */
  function RemoveNodesFromEnd<T>(s: seq<T>, n: nat): (r: seq<T>)
    ensures |r| == Min(n, |s|)
    ensures forall i :: 0 <= i < |r| ==> r[i] == s[i]
  {
    Limit(s, n)
  }

  lemma RemoveNodesFromEndExample()
    ensures RemoveNodesFromEnd(['A', 'B', 'C', 'D'], 3) == ['A', 'B', 'C']
  {
  }

  /**
   * removeNodesFromBeginning as the code has it: `limit(n)` on the query as
   * ordered, then reversed.  No flipped sort reaches it, so it reverses the
   * first n rows instead of returning the last n.
   */
  function RemoveNodesFromBeginningAsWritten<T>(s: seq<T>, n: nat): (r: seq<T>)
    ensures |r| == Min(n, |s|)
    ensures forall i :: 0 <= i < |r| ==> r[i] == s[|r| - 1 - i]
  {
    Reverse(Limit(s, n))
  }

  /**
   * removeNodesFromBeginning as documented: take n from the order flipped,
   * then flip back, which yields the last n rows in display order.
   */
  function RemoveNodesFromBeginning<T>(s: seq<T>, n: nat): (r: seq<T>)
    ensures r == s[|s| - Min(n, |s|)..]
  {
    var m := Min(n, |s|);
    var r := Reverse(Limit(Reverse(s), n));
    assert forall i :: 0 <= i < m ==> r[i] == s[|s| - m + i] by {
      forall i | 0 <= i < m ensures r[i] == s[|s| - m + i] {
        assert Reverse(s)[m - 1 - i] == s[|s| - 1 - (m - 1 - i)];
      }
    }
    r
  }

  /** The documented example `[A, B, C, D]`, 3, and what the code returns for it. */
  lemma RemoveNodesFromBeginningExample()
    ensures RemoveNodesFromBeginning(['A', 'B', 'C', 'D'], 3) == ['B', 'C', 'D']
    ensures RemoveNodesFromBeginningAsWritten(['A', 'B', 'C', 'D'], 3) == ['C', 'B', 'A']
  {
    assert ['A', 'B', 'C', 'D'][1..] == ['B', 'C', 'D'];
    assert Limit(['A', 'B', 'C', 'D'], 3) == ['A', 'B', 'C'];
  }

  /** hasLengthGreaterThan: fetch amount + 1 rows and see whether all came back. */
  function HasLengthGreaterThan<T>(s: seq<T>, amount: nat): (r: bool)
    ensures r <==> |s| > amount
  {
    |Limit(s, amount + 1)| == amount + 1
  }

  /**
   * The `first` over-fetch: fetch n + 1 rows; more than n coming back means
   * more rows exist, and the extra one is cut off, leaving the first n.
   */
  method FetchFirst<T>(s: seq<T>, n: nat) returns (nodes: seq<T>, more: bool)
    ensures nodes == s[..Min(n, |s|)]
    ensures more <==> |s| > n
  {
    nodes := RemoveNodesFromEnd(s, n + 1);
    more := false;
    if |nodes| > n {
      more := true;
      nodes := nodes[..n];
    }
  }

  /**
   * The `last` over-fetch: fetch the last n + 1 rows; more than n coming
   * back means more rows exist, and the first of them is dropped, leaving
   * the last n.
   */
  method FetchLast<T>(s: seq<T>, n: nat) returns (nodes: seq<T>, more: bool)
    ensures nodes == s[|s| - Min(n, |s|)..]
    ensures more <==> |s| > n
  {
    nodes := RemoveNodesFromBeginning(s, n + 1);
    more := false;
    if |nodes| > n {
      more := true;
      nodes := nodes[1..];
    }
  }
}
