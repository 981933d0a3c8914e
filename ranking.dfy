/** What both frequency indexes share: the caller's rankable documents, the
    operator table, the two query forms and the meaning of a sequence of
    `setRank` calls. */
module Ranking {
  import Tokenizer

  /** A caller-owned document: `document()` is its text, `getRank`/`setRank`
      read and write its rank. */
  class Rankable {
    const body: string
    var rank: real

    constructor (body: string, rank: real)
      ensures this.body == body && this.rank == rank
    {
      this.body := body;
      this.rank := rank;
    }
  }

  /** The operator table: "or" starts from 0 and adds, "and" starts from 1
      and multiplies the new weight by the distance of the rank from 1. */
  datatype Op = Or | And {
    function DefaultRank(): real {
      if Or? then 0.0 else 1.0
    }

    function Process(rank: real, other: real): real {
      if Or? then rank + other
      else (if rank - 1.0 < 0.0 then 1.0 - rank else rank - 1.0) * other
    }
  }

  /** `search` accepts raw text, which it tokenizes, or ready-made terms. */
  datatype Query = Raw(text: string) | Tokens(terms: seq<string>)

  /** The terms of a query; `tokenize` is the search.ts or the vec.ts one. */
  function QueryTerms(query: Query, vec: bool): seq<string> {
    match query
    case Raw(text) => if vec then Tokenizer.TokenizeVec(text) else Tokenizer.Tokenize(text)
    case Tokens(terms) => terms
  }

  /** One `setRank(value)` call on `target`. */
  datatype Write = Write(target: Rankable, value: real)

  /** The documents written to, in call order. */
  function Targets(ws: seq<Write>): seq<Rankable> {
    if ws == [] then [] else Targets(ws[..|ws| - 1]) + [ws[|ws| - 1].target]
  }

  lemma {:induction false} TargetsAt(ws: seq<Write>)
    ensures |Targets(ws)| == |ws|
    ensures forall k :: 0 <= k < |ws| ==> Targets(ws)[k] == ws[k].target
  {
    if ws != [] {
      TargetsAt(ws[..|ws| - 1]);
    }
  }

  /** Later calls never take a document out of the ones written to. */
  lemma TargetsGrow(ws: seq<Write>, more: seq<Write>, o: Rankable)
    requires o in Targets(ws)
    ensures o in Targets(ws + more)
  {
    TargetsAt(ws);
    TargetsAt(ws + more);
    var k :| 0 <= k < |Targets(ws)| && Targets(ws)[k] == o;
    assert Targets(ws + more)[k] == o;
  }

  /** The rank `o` holds after the calls `ws`, starting from `init`. The same
      object may be indexed twice, so the last call on it wins. */
  function LastWrite(ws: seq<Write>, o: Rankable, init: real): real {
    if ws == [] then init
    else if ws[|ws| - 1].target == o then ws[|ws| - 1].value
    else LastWrite(ws[..|ws| - 1], o, init)
  }

  /** An object no call targets keeps `init`; otherwise it holds the value of
      the last call that targets it. */
  lemma {:induction false} LastWriteWins(ws: seq<Write>, o: Rankable, init: real)
    ensures (forall k :: 0 <= k < |ws| ==> ws[k].target != o) ==> LastWrite(ws, o, init) == init
    ensures (exists k :: 0 <= k < |ws| && ws[k].target == o) ==>
      exists k :: 0 <= k < |ws| && ws[k].target == o && LastWrite(ws, o, init) == ws[k].value &&
        forall m :: k < m < |ws| ==> ws[m].target != o
  {
    if ws != [] {
      var n := |ws| - 1;
      LastWriteWins(ws[..n], o, init);
      if ws[n].target != o && exists k :: 0 <= k < |ws| && ws[k].target == o {
        var k :| 0 <= k < |ws| && ws[k].target == o;
        assert ws[..n][k] == ws[k];
      }
    }
  }

  /** One more write changes only its target's rank and adds its target. */
  lemma LastWriteSnoc(ws: seq<Write>, w: Write, init: real)
    ensures forall o :: LastWrite(ws + [w], o, init) == if o == w.target then w.value else LastWrite(ws, o, init)
    ensures Targets(ws + [w]) == Targets(ws) + [w.target]
  {
    assert (ws + [w])[..|ws|] == ws;
  }
}
