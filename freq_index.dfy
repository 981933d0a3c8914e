/** `FrequencyIndex` of src/search/search.ts: an inverted index from each term
    to the list of documents it occurs in (one entry per occurrence), with a
    search that resets every rank and then writes one score per posting. */
module FreqIndex {
  import opened Tokenizer
  import opened Counting
  import opened Ranking
  import opened Wrappers

  /** The per-term entry of the corpus map. `dist` is never written. */
  datatype IndexValue = IndexValue(freq: nat, dist: nat, docs: seq<nat>)

  /** A tokenized document record. */
  datatype Doc = Doc(doc: Rankable, tokens: seq<string>, frequencies: map<string, nat>)

  const Fresh := IndexValue(0, 0, [])

  function Get(freqs: map<string, IndexValue>, t: string): IndexValue {
    if t in freqs then freqs[t] else Fresh
  }

  /** `c` copies of document index `ix`. */
  function Repeat(ix: nat, c: nat): (r: seq<nat>)
    ensures |r| == c && forall k :: 0 <= k < c ==> r[k] == ix
  {
    if c == 0 then [] else Repeat(ix, c - 1) + [ix]
  }

  /** An entry after `c` more occurrences in document `ix`. */
  function Grown(v: IndexValue, ix: nat, c: nat): IndexValue {
    IndexValue(v.freq + c, v.dist, v.docs + Repeat(ix, c))
  }

  /** One occurrence of `tok` in document `ix`: the body of the inner loop of
      the constructor and of `add`. */
  function Bump(freqs: map<string, IndexValue>, tok: string, ix: nat): map<string, IndexValue> {
    var val := Get(freqs, tok);
    freqs[tok := IndexValue(val.freq + 1, val.dist, val.docs + [ix])]
  }

  /** All tokens of document `ix`, one after the other. */
  function BumpAll(freqs: map<string, IndexValue>, toks: seq<string>, ix: nat): map<string, IndexValue> {
    if toks == [] then freqs
    else Bump(BumpAll(freqs, toks[..|toks| - 1], ix), toks[|toks| - 1], ix)
  }

  /** Indexing the tokens of document `ix` adds exactly those tokens as keys
      and grows each entry by the token's number of occurrences: `ix` is
      appended once per occurrence and every other entry is left alone. */
  lemma {:induction false} BumpAllGrows(freqs: map<string, IndexValue>, toks: seq<string>, ix: nat)
    ensures BumpAll(freqs, toks, ix).Keys == freqs.Keys + set t | t in toks
    ensures forall t :: Get(BumpAll(freqs, toks, ix), t) == Grown(Get(freqs, t), ix, multiset(toks)[t])
  {
    if toks != [] {
      var init, last := toks[..|toks| - 1], toks[|toks| - 1];
      assert toks == init + [last];
      BumpAllGrows(freqs, init, ix);
      forall t ensures Get(BumpAll(freqs, toks, ix), t) == Grown(Get(freqs, t), ix, multiset(toks)[t]) {
        BumpOnce(freqs, init, last, ix, t);
      }
    } else {
      forall t ensures Get(BumpAll(freqs, toks, ix), t) == Grown(Get(freqs, t), ix, multiset(toks)[t]) {
        assert Get(freqs, t).docs + [] == Get(freqs, t).docs;
      }
    }
  }

  lemma BumpOnce(freqs: map<string, IndexValue>, init: seq<string>, last: string, ix: nat, t: string)
    requires Get(BumpAll(freqs, init, ix), t) == Grown(Get(freqs, t), ix, multiset(init)[t])
    ensures Get(BumpAll(freqs, init + [last], ix), t) == Grown(Get(freqs, t), ix, multiset(init + [last])[t])
  {
    assert (init + [last])[..|init|] == init;
    assert multiset(init + [last])[t] == multiset(init)[t] + (if t == last then 1 else 0);
    if t == last {
      GrownOnce(Get(freqs, t), ix, multiset(init)[t]);
    }
  }

  lemma GrownOnce(v: IndexValue, ix: nat, c: nat)
    ensures var g := Grown(v, ix, c);
      IndexValue(g.freq + 1, g.dist, g.docs + [ix]) == Grown(v, ix, c + 1)
  {
    assert v.docs + Repeat(ix, c) + [ix] == v.docs + Repeat(ix, c + 1);
  }

  /** The corpus map built from the token lists `ts`, document by document:
      what the constructor builds and what every `add` extends. */
  function Indexed(ts: seq<seq<string>>): map<string, IndexValue> {
    if ts == [] then map[]
    else BumpAll(Indexed(ts[..|ts| - 1]), ts[|ts| - 1], |ts| - 1)
  }

  /** The posting list of `t` in the declarative form: document 0's
      occurrences, then document 1's, and so on. */
  function Postings(ts: seq<seq<string>>, t: string): seq<nat> {
    if ts == [] then []
    else Postings(ts[..|ts| - 1], t) + Repeat(|ts| - 1, multiset(ts[|ts| - 1])[t])
  }

  predicate Sorted(s: seq<nat>) {
    forall i, j :: 0 <= i < j < |s| ==> s[i] <= s[j]
  }

  /** The corpus map holds exactly the terms of the corpus, and each entry is
      its posting list with `freq` its length and `dist` zero. */
  lemma {:induction false} IndexedIsPostings(ts: seq<seq<string>>)
    ensures forall t :: t in Indexed(ts) <==> exists i :: 0 <= i < |ts| && t in ts[i]
    ensures forall t :: Get(Indexed(ts), t) == IndexValue(|Postings(ts, t)|, 0, Postings(ts, t))
  {
    if ts != [] {
      var init, n := ts[..|ts| - 1], |ts| - 1;
      IndexedIsPostings(init);
      BumpAllGrows(Indexed(init), ts[n], n);
      forall t: string ensures t in Indexed(ts) <==> exists i :: 0 <= i < |ts| && t in ts[i] {
        if t in Indexed(ts) && t !in ts[n] {
          assert t in Indexed(init);
          var i :| 0 <= i < |init| && t in init[i];
          assert ts[i] == init[i];
        }
        if exists i :: 0 <= i < |ts| && t in ts[i] {
          var i :| 0 <= i < |ts| && t in ts[i];
          if i < n { assert init[i] == ts[i]; }
        }
      }
      forall t: string
        ensures Get(Indexed(ts), t) == IndexValue(|Postings(ts, t)|, 0, Postings(ts, t))
      {
        assert ts == init + [ts[n]];
      }
    }
  }

  /** A term that no document holds has an empty posting list. */
  lemma {:induction false} PostingsAbsent(ts: seq<seq<string>>, t: string)
    requires forall i :: 0 <= i < |ts| ==> t !in ts[i]
    ensures Postings(ts, t) == []
  {
    if ts != [] {
      PostingsAbsent(ts[..|ts| - 1], t);
      assert multiset(ts[|ts| - 1])[t] == 0;
    }
  }

  /** The posting list of `t` is non-decreasing, every entry is a document
      index, document `i` appears exactly as often as `t` occurs in it, and its
      length is the number of occurrences of `t` in the whole corpus. */
  lemma PostingsShape(ts: seq<seq<string>>, t: string)
    ensures Sorted(Postings(ts, t))
    ensures forall k :: 0 <= k < |Postings(ts, t)| ==> Postings(ts, t)[k] < |ts|
    ensures forall i :: 0 <= i < |ts| ==> multiset(Postings(ts, t))[i] == multiset(ts[i])[t]
    ensures |Postings(ts, t)| == multiset(Flatten(ts))[t]
  {
    PostingsOrdered(ts, t);
    PostingsCounts(ts, t);
  }

  lemma {:induction false} PostingsOrdered(ts: seq<seq<string>>, t: string)
    ensures Sorted(Postings(ts, t))
    ensures forall k :: 0 <= k < |Postings(ts, t)| ==> Postings(ts, t)[k] < |ts|
  {
    if ts != [] {
      var init, n := ts[..|ts| - 1], |ts| - 1;
      PostingsOrdered(init, t);
      var p, extra := Postings(init, t), Repeat(n, multiset(ts[n])[t]);
      assert Postings(ts, t) == p + extra;
    }
  }

  lemma {:induction false} PostingsCounts(ts: seq<seq<string>>, t: string)
    ensures forall i :: 0 <= i < |ts| ==> multiset(Postings(ts, t))[i] == multiset(ts[i])[t]
    ensures |Postings(ts, t)| == multiset(Flatten(ts))[t]
  {
    if ts != [] {
      var init, n := ts[..|ts| - 1], |ts| - 1;
      PostingsCounts(init, t);
      PostingsOrdered(init, t);
      var p, extra := Postings(init, t), Repeat(n, multiset(ts[n])[t]);
      assert Postings(ts, t) == p + extra;
      assert multiset(p + extra) == multiset(p) + multiset(extra);
      forall i | 0 <= i < |ts| ensures multiset(Postings(ts, t))[i] == multiset(ts[i])[t] {
        PostingsCountStep(ts, t, i);
      }
      assert multiset(Flatten(ts)) == multiset(Flatten(init)) + multiset(ts[n]);
    }
  }

  lemma PostingsCountStep(ts: seq<seq<string>>, t: string, i: nat)
    requires ts != [] && i < |ts|
    requires var init := ts[..|ts| - 1];
      (forall k :: 0 <= k < |init| ==> multiset(Postings(init, t))[k] == multiset(init[k])[t]) &&
      (forall k :: 0 <= k < |Postings(init, t)| ==> Postings(init, t)[k] < |init|)
    ensures multiset(Postings(ts, t))[i] == multiset(ts[i])[t]
  {
    var init, n := ts[..|ts| - 1], |ts| - 1;
    var p, extra := Postings(init, t), Repeat(n, multiset(ts[n])[t]);
    assert multiset(Postings(ts, t)) == multiset(p) + multiset(extra);
    if i < n {
      assert ts[i] == init[i];
      assert i !in extra;
    } else {
      assert i !in p;
      RepeatCount(n, multiset(ts[n])[t]);
    }
  }

  lemma {:induction false} RepeatCount(ix: nat, c: nat)
    ensures multiset(Repeat(ix, c))[ix] == c
  {
    if c > 0 {
      RepeatCount(ix, c - 1);
    }
  }

  /** Every entry of a corpus map counts its own postings. */
  predicate Counted(freqs: map<string, IndexValue>) {
    forall t :: t in freqs ==> freqs[t].freq == |freqs[t].docs|
  }

  /** A record as `add` and the constructor make it: the document's tokens and
      their counts. */
  predicate Tokenized(rec: Doc) {
    rec.tokens == Tokenize(rec.doc.body) && rec.frequencies == CountMap(rec.tokens)
  }

  predicate WellFormed(docs: seq<Doc>) {
    forall i :: 0 <= i < |docs| ==> Tokenized(docs[i])
  }

  function TokenLists(docs: seq<Doc>): (r: seq<seq<string>>)
    ensures |r| == |docs| && forall i :: 0 <= i < |docs| ==> r[i] == docs[i].tokens
  {
    seq(|docs|, i requires 0 <= i < |docs| => docs[i].tokens)
  }

  /** The score `search` writes: `tf / maxfreq * log(n / freq)` with `maxfreq`
      fixed at 1; `ln` stands for `Math.log`. */
  function Score(tf: nat, n: nat, freq: nat, ln: real -> real): real
    requires freq > 0
  {
    (tf as real / 1.0) * ln(n as real / freq as real)
  }

  /** The `setRank` calls for the first `k` postings of query term `q`, whose
      entry is `v`; a posting whose document has no count for `q` is skipped. */
  function PostingWrites(documents: seq<Doc>, q: string, v: IndexValue, k: nat, ln: real -> real): seq<Write>
    requires k <= |v.docs| == v.freq
  {
    if k == 0 then []
    else
      var ix := v.docs[k - 1];
      PostingWrites(documents, q, v, k - 1, ln) +
        (if ix < |documents| && q in documents[ix].frequencies
         then [Write(documents[ix].doc, Score(documents[ix].frequencies[q], |documents|, v.freq, ln))]
         else [])
  }

  /** All `setRank` calls of a search for the terms `qs`, in call order:
      query term by query term, and within a term posting by posting. */
  function Hits(documents: seq<Doc>, freqs: map<string, IndexValue>, qs: seq<string>, ln: real -> real): seq<Write>
    requires Counted(freqs)
  {
    if qs == [] then []
    else
      var q := qs[|qs| - 1];
      Hits(documents, freqs, qs[..|qs| - 1], ln) +
        (if q in freqs then PostingWrites(documents, q, freqs[q], |freqs[q].docs|, ln) else [])
  }

  /** Every posting of entry `v` of term `q` names a record that counts `q`. */
  predicate Resolves(docs: seq<Doc>, q: string, v: IndexValue) {
    forall j :: 0 <= j < |v.docs| ==> v.docs[j] < |docs| && q in docs[v.docs[j]].frequencies
  }

  /** Under the indexing invariant every posting names an indexed document
      that counts the term, so the `tf === undefined` branch of `search` is
      never taken; and every entry counts its postings. */
  lemma PostingsResolve(documents: seq<Doc>, freqs: map<string, IndexValue>)
    requires WellFormed(documents) && freqs == Indexed(TokenLists(documents))
    ensures Counted(freqs)
    ensures forall q :: q in freqs ==> Resolves(documents, q, freqs[q])
  {
    IndexedIsPostings(TokenLists(documents));
    forall q | q in freqs ensures freqs[q].freq == |freqs[q].docs| && Resolves(documents, q, freqs[q]) {
      TermResolves(documents, freqs, q);
    }
  }

  lemma TermResolves(documents: seq<Doc>, freqs: map<string, IndexValue>, q: string)
    requires WellFormed(documents) && freqs == Indexed(TokenLists(documents)) && q in freqs
    requires freqs[q] == IndexValue(|Postings(TokenLists(documents), q)|, 0, Postings(TokenLists(documents), q))
    ensures freqs[q].freq == |freqs[q].docs| && Resolves(documents, q, freqs[q])
  {
    var ts := TokenLists(documents);
    forall j | 0 <= j < |freqs[q].docs|
      ensures freqs[q].docs[j] < |documents| && q in documents[freqs[q].docs[j]].frequencies
    {
      var ix := freqs[q].docs[j];
      assert ix in Postings(ts, q);
      PostingsMember(ts, q, ix);
      assert ts[ix] == documents[ix].tokens;
      assert Tokenized(documents[ix]);
    }
  }

  /** A document index in the posting list of `t` is a document holding `t`. */
  lemma PostingsMember(ts: seq<seq<string>>, t: string, ix: nat)
    requires ix in Postings(ts, t)
    ensures ix < |ts| && t in ts[ix]
  {
    PostingsShape(ts, t);
    var k :| 0 <= k < |Postings(ts, t)| && Postings(ts, t)[k] == ix;
    assert multiset(Postings(ts, t))[ix] > 0;
    assert multiset(ts[ix])[t] > 0;
  }

  /** When no posting is skipped, the writes for a term are one per posting,
      in posting order. */
  lemma {:induction false} PostingWritesAll(documents: seq<Doc>, q: string, v: IndexValue, k: nat, ln: real -> real)
    requires k <= |v.docs| == v.freq
    requires Resolves(documents, q, v)
    ensures |PostingWrites(documents, q, v, k, ln)| == k
    ensures forall j :: 0 <= j < k ==>
      PostingWrites(documents, q, v, k, ln)[j] ==
        Write(documents[v.docs[j]].doc, Score(documents[v.docs[j]].frequencies[q], |documents|, v.freq, ln))
  {
    if k > 0 {
      PostingWritesAll(documents, q, v, k - 1, ln);
    }
  }

  /** Indexes every occurrence of `toks` as document `ix`: the inner loop of
      the constructor and the loop of `add`. */
  method IndexDocument(freqs: map<string, IndexValue>, toks: seq<string>, ix: nat)
    returns (r: map<string, IndexValue>)
    ensures r == BumpAll(freqs, toks, ix)
  {
    r := freqs;
    for j := 0 to |toks|
      invariant r == BumpAll(freqs, toks[..j], ix)
    {
      var val := if toks[j] in r then r[toks[j]] else IndexValue(0, 0, []);
      val := IndexValue(val.freq + 1, val.dist, val.docs + [ix]);
      r := r[toks[j] := val];
      assert toks[..j + 1][..j] == toks[..j];
    }
    assert toks[..|toks|] == toks;
  }

  /** One record: tokenize the document and count its tokens. */
  method MakeRecord(d: Rankable) returns (rec: Doc)
    ensures rec.doc == d && Tokenized(rec)
  {
    var tokens := Tokenize(d.body);
    var frequencies := BuildFreqMap(tokens);
    rec := Doc(d, tokens, frequencies);
  }

  /** The `documents` of the constructor: one record per document, in order. */
  method MakeRecords(ds: seq<Rankable>) returns (recs: seq<Doc>)
    ensures |recs| == |ds| && WellFormed(recs)
    ensures forall i :: 0 <= i < |ds| ==> recs[i].doc == ds[i]
  {
    recs := [];
    for i := 0 to |ds|
      invariant |recs| == i && WellFormed(recs)
      invariant forall k :: 0 <= k < i ==> recs[k].doc == ds[k]
    {
      var rec := MakeRecord(ds[i]);
      recs := recs + [rec];
    }
  }

  /** The nested loop of the constructor: index the records' tokens document
      by document. */
  method IndexAll(recs: seq<Doc>) returns (fr: map<string, IndexValue>)
    ensures fr == Indexed(TokenLists(recs))
  {
    fr := map[];
    for i := 0 to |recs|
      invariant fr == Indexed(TokenLists(recs[..i]))
    {
      fr := IndexDocument(fr, recs[i].tokens, i);
      TokenListsSnoc(recs[..i], recs[i]);
      assert recs[..i + 1] == recs[..i] + [recs[i]];
    }
    assert recs[..|recs|] == recs;
  }

  /** Appending a record appends its token list. */
  lemma TokenListsSnoc(docs: seq<Doc>, rec: Doc)
    ensures TokenLists(docs + [rec]) == TokenLists(docs) + [rec.tokens]
    ensures Indexed(TokenLists(docs + [rec])) == BumpAll(Indexed(TokenLists(docs)), rec.tokens, |docs|)
  {
    var ts := TokenLists(docs + [rec]);
    assert ts == TokenLists(docs) + [rec.tokens];
    assert ts[..|ts| - 1] == TokenLists(docs);
  }

  /** Appending the record of a document keeps the indexing invariant, with
      the new record's tokens indexed as the last document. */
  lemma AppendRecord(docs: seq<Doc>, freqs: map<string, IndexValue>, rec: Doc)
    requires WellFormed(docs) && freqs == Indexed(TokenLists(docs)) && Tokenized(rec)
    ensures WellFormed(docs + [rec])
    ensures BumpAll(freqs, rec.tokens, |docs|) == Indexed(TokenLists(docs + [rec]))
  {
    TokenListsSnoc(docs, rec);
  }

  /** The search.ts index. `op` is fixed at construction; `ndocs` is recorded
      and never read. */
  class FrequencyIndex {
    var ndocs: nat
    const op: Op
    var freqs: map<string, IndexValue>
    var documents: seq<Doc>

    /** Every record is the tokenization of its document and the corpus map
        is the index of the records' tokens, document by document. */
    predicate Valid()
      reads this
    {
      WellFormed(documents) && freqs == Indexed(TokenLists(documents))
    }

    /** The caller's documents, whose ranks `search` writes. */
    function Rankables(): set<Rankable>
      reads this
    {
      Docs(documents)
    }

    /** Without documents the index is empty; otherwise it holds one record
        per document, in order, and `ndocs` is their number. */
    constructor (docs: Option<seq<Rankable>>, op: Op)
      ensures Valid() && this.op == op
      ensures docs.None? ==> ndocs == 0 && documents == []
      ensures docs.Some? ==> ndocs == |docs.value| && |documents| == |docs.value|
      ensures docs.Some? ==> forall i :: 0 <= i < |documents| ==> documents[i].doc == docs.value[i]
    {
      this.op := op;
      if docs.None? {
        ndocs := 0;
        documents := [];
        freqs := map[];
      } else {
        var ds := docs.value;
        var recs := MakeRecords(ds);
        var fr := IndexAll(recs);
        ndocs := |ds|;
        documents := recs;
        freqs := fr;
      }
    }

    /** `add`: appends one record and indexes its tokens as the last
        document; every other record and `ndocs` stay as they were. */
    method Add(d: Rankable)
      requires Valid()
      modifies this
      ensures Valid()
      ensures |documents| == |old(documents)| + 1 && documents[..|old(documents)|] == old(documents)
      ensures documents[|old(documents)|].doc == d && Tokenized(documents[|old(documents)|])
      ensures freqs == BumpAll(old(freqs), Tokenize(d.body), |old(documents)|)
      ensures ndocs == old(ndocs)
    {
      var rec := MakeRecord(d);
      ghost var docs0, freqs0 := documents, freqs;
      var fr := IndexDocument(freqs, rec.tokens, |documents|);
      AppendRecord(docs0, freqs0, rec);
      documents, freqs := documents + [rec], fr;
      assert WellFormed(documents) && freqs == Indexed(TokenLists(documents));
    }

    /** `search`: resets every rank to the operator's default, then writes one
        score per posting of every query term the index holds. The result is
        the written documents in call order, and each document ends with the
        last score written to it (or the default). The index is not changed. */
    method Search(query: Query, ln: real -> real) returns (result: seq<Rankable>)
      requires Valid()
      modifies Rankables()
      ensures Counted(freqs)
      ensures result == Targets(Hits(documents, freqs, QueryTerms(query, false), ln))
      ensures forall o :: o in Rankables() ==>
        o.rank == LastWrite(Hits(documents, freqs, QueryTerms(query, false), ln), o, op.DefaultRank())
    {
      var qs := QueryTerms(query, false);
      PostingsResolve(documents, freqs);
      ResetRanks(documents, op.DefaultRank());
      result := ScoreTerms(documents, freqs, qs, ln, op.DefaultRank());
    }
  }

  /** The caller objects of a list of records. */
  function Docs(docs: seq<Doc>): set<Rankable> {
    set i | 0 <= i < |docs| :: docs[i].doc
  }

  /** The first loop of `search`. */
  method ResetRanks(docs: seq<Doc>, init: real)
    modifies Docs(docs)
    ensures forall o :: o in Docs(docs) ==> o.rank == init
  {
    for i := 0 to |docs|
      invariant forall k :: 0 <= k < i ==> docs[k].doc.rank == init
    {
      docs[i].doc.rank := init;
    }
  }

  /** The query loop of `search`, after the ranks were reset to `init`. */
  method ScoreTerms(docs: seq<Doc>, freqs: map<string, IndexValue>, qs: seq<string>, ln: real -> real, init: real)
    returns (result: seq<Rankable>)
    requires Counted(freqs)
    requires forall q :: q in freqs ==> Resolves(docs, q, freqs[q])
    requires forall o :: o in Docs(docs) ==> o.rank == init
    modifies Docs(docs)
    ensures result == Targets(Hits(docs, freqs, qs, ln))
    ensures forall o :: o in Docs(docs) ==> o.rank == LastWrite(Hits(docs, freqs, qs, ln), o, init)
  {
    result := [];
    ghost var ws := [];
    for qi := 0 to |qs|
      invariant ws == Hits(docs, freqs, qs[..qi], ln)
      invariant result == Targets(ws)
      invariant forall o :: o in Docs(docs) ==> o.rank == LastWrite(ws, o, init)
    {
      var q := qs[qi];
      HitsStep(docs, freqs, qs, qi, ln);
      if q in freqs {
        assert Resolves(docs, q, freqs[q]);
        result := ScoreTerm(docs, q, freqs[q], ln, ws, result, init);
        ws := ws + PostingWrites(docs, q, freqs[q], |freqs[q].docs|, ln);
      }
    }
    assert qs[..|qs|] == qs;
  }

  lemma HitsStep(docs: seq<Doc>, freqs: map<string, IndexValue>, qs: seq<string>, i: nat, ln: real -> real)
    requires Counted(freqs) && i < |qs|
    ensures Hits(docs, freqs, qs[..i + 1], ln) == Hits(docs, freqs, qs[..i], ln) +
      (if qs[i] in freqs then PostingWrites(docs, qs[i], freqs[qs[i]], |freqs[qs[i]].docs|, ln) else [])
  {
    assert qs[..i + 1][..i] == qs[..i];
  }

  /** The inner loop of `search` for one query term with entry `idf`: one
      write per posting, after the calls `prior` made so far. */
  method ScoreTerm(docs: seq<Doc>, q: string, idf: IndexValue, ln: real -> real,
                   ghost prior: seq<Write>, acc: seq<Rankable>, init: real)
    returns (result: seq<Rankable>)
    requires |idf.docs| == idf.freq
    requires Resolves(docs, q, idf)
    requires acc == Targets(prior)
    requires forall o :: o in Docs(docs) ==> o.rank == LastWrite(prior, o, init)
    modifies Docs(docs)
    ensures result == Targets(prior + PostingWrites(docs, q, idf, |idf.docs|, ln))
    ensures forall o :: o in Docs(docs) ==> o.rank == LastWrite(prior + PostingWrites(docs, q, idf, |idf.docs|, ln), o, init)
  {
    result := acc;
    ghost var ws := prior;
    for j := 0 to |idf.docs|
      invariant ws == prior + PostingWrites(docs, q, idf, j, ln)
      invariant result == Targets(ws)
      invariant forall o :: o in Docs(docs) ==> o.rank == LastWrite(ws, o, init)
    {
      var ix := idf.docs[j];
      var doc := docs[ix];
      if q in doc.frequencies {
        var tf := doc.frequencies[q];
        var score := (tf as real / 1.0) * ln(|docs| as real / idf.freq as real);
        assert score == Score(tf, |docs|, idf.freq, ln);
        ScoreStep(docs, q, idf, j, ln, prior, init);
        SetRank(docs, doc.doc, score, ws, init);
        result := result + [doc.doc];
        ws := ws + [Write(doc.doc, score)];
      }
    }
  }

  /** `setRank(value)` on one of the records' documents, recorded as the next
      write. */
  method SetRank(docs: seq<Doc>, d: Rankable, value: real, ghost ws: seq<Write>, init: real)
    requires d in Docs(docs)
    requires forall o :: o in Docs(docs) ==> o.rank == LastWrite(ws, o, init)
    modifies d
    ensures forall o :: o in Docs(docs) ==> o.rank == LastWrite(ws + [Write(d, value)], o, init)
  {
    LastWriteSnoc(ws, Write(d, value), init);
    d.rank := value;
  }

  /** The write for posting `j` extends the calls made so far by one, which
      changes only its target's rank. */
  lemma ScoreStep(docs: seq<Doc>, q: string, idf: IndexValue, j: nat, ln: real -> real, prior: seq<Write>, init: real)
    requires j < |idf.docs| == idf.freq
    requires idf.docs[j] < |docs| && q in docs[idf.docs[j]].frequencies
    ensures docs[idf.docs[j]].doc in Docs(docs)
    ensures var w := Write(docs[idf.docs[j]].doc, Score(docs[idf.docs[j]].frequencies[q], |docs|, idf.freq, ln));
      var ws := prior + PostingWrites(docs, q, idf, j, ln);
      prior + PostingWrites(docs, q, idf, j + 1, ln) == ws + [w] &&
      Targets(ws + [w]) == Targets(ws) + [w.target]
  {
    var w := Write(docs[idf.docs[j]].doc, Score(docs[idf.docs[j]].frequencies[q], |docs|, idf.freq, ln));
    var ws := prior + PostingWrites(docs, q, idf, j, ln);
    assert PostingWrites(docs, q, idf, j + 1, ln) == PostingWrites(docs, q, idf, j, ln) + [w];
    LastWriteSnoc(ws, w, init);
  }

  /** The number of occurrences of the query terms in the corpus, term by term
      (a repeated query term counts again). */
  function QueryOccurrences(ts: seq<seq<string>>, qs: seq<string>): nat {
    if qs == [] then 0
    else QueryOccurrences(ts, qs[..|qs| - 1]) + multiset(Flatten(ts))[qs[|qs| - 1]]
  }

  /** A search writes once per occurrence of a query term in the corpus: a
      document holding a query term three times is written, and returned,
      three times. */
  lemma {:induction false} HitsCount(docs: seq<Doc>, freqs: map<string, IndexValue>, qs: seq<string>, ln: real -> real)
    requires WellFormed(docs) && freqs == Indexed(TokenLists(docs)) && Counted(freqs)
    ensures |Hits(docs, freqs, qs, ln)| == QueryOccurrences(TokenLists(docs), qs)
  {
    if qs != [] {
      var ts, q := TokenLists(docs), qs[|qs| - 1];
      HitsCount(docs, freqs, qs[..|qs| - 1], ln);
      IndexedIsPostings(ts);
      PostingsCounts(ts, q);
      if q in freqs {
        PostingsResolve(docs, freqs);
        PostingWritesAll(docs, q, freqs[q], |freqs[q].docs|, ln);
        assert Get(freqs, q) == freqs[q];
      } else {
        PostingsAbsent(ts, q);
      }
    }
  }

  /** Every write of a search targets a document holding one of the query
      terms. */
  lemma {:induction false} HitsSound(docs: seq<Doc>, freqs: map<string, IndexValue>, qs: seq<string>, ln: real -> real)
    requires WellFormed(docs) && freqs == Indexed(TokenLists(docs)) && Counted(freqs)
    ensures forall w :: w in Hits(docs, freqs, qs, ln) ==>
      exists i, k :: 0 <= i < |docs| && 0 <= k < |qs| && w.target == docs[i].doc && qs[k] in docs[i].tokens
  {
    if qs != [] {
      var init, q := qs[..|qs| - 1], qs[|qs| - 1];
      HitsSound(docs, freqs, init, ln);
      forall w | w in Hits(docs, freqs, qs, ln)
        ensures exists i, k :: 0 <= i < |docs| && 0 <= k < |qs| && w.target == docs[i].doc && qs[k] in docs[i].tokens
      {
        if w in Hits(docs, freqs, init, ln) {
          var i, k :| 0 <= i < |docs| && 0 <= k < |init| && w.target == docs[i].doc && init[k] in docs[i].tokens;
          assert qs[k] == init[k];
        } else {
          assert q in freqs && w in PostingWrites(docs, q, freqs[q], |freqs[q].docs|, ln);
          TermWriteSound(docs, freqs, q, w, ln);
          var ix :| 0 <= ix < |docs| && w.target == docs[ix].doc && q in docs[ix].tokens;
          assert qs[|qs| - 1] == q;
        }
      }
    }
  }

  /** Every write made while scoring the postings of one term targets a
      document holding that term. */
  lemma TermWriteSound(docs: seq<Doc>, freqs: map<string, IndexValue>, q: string, w: Write, ln: real -> real)
    requires WellFormed(docs) && freqs == Indexed(TokenLists(docs)) && Counted(freqs)
    requires q in freqs && w in PostingWrites(docs, q, freqs[q], |freqs[q].docs|, ln)
    ensures exists ix :: 0 <= ix < |docs| && w.target == docs[ix].doc && q in docs[ix].tokens
  {
    PostingsResolve(docs, freqs);
    var ix := PostingWriteAt(docs, q, freqs[q], w, ln);
    assert Tokenized(docs[ix]);
  }

  /** Every write made while scoring the postings of entry `v` targets a
      record that counts the term. */
  lemma PostingWriteAt(docs: seq<Doc>, q: string, v: IndexValue, w: Write, ln: real -> real) returns (ix: nat)
    requires |v.docs| == v.freq && Resolves(docs, q, v)
    requires w in PostingWrites(docs, q, v, |v.docs|, ln)
    ensures ix < |docs| && w.target == docs[ix].doc && q in docs[ix].frequencies
  {
    PostingWritesAll(docs, q, v, |v.docs|, ln);
    var j :| 0 <= j < |v.docs| && PostingWrites(docs, q, v, |v.docs|, ln)[j] == w;
    ix := v.docs[j];
  }

  /** Every document holding a query term is written by the search. */
  lemma {:induction false} HitsComplete(docs: seq<Doc>, freqs: map<string, IndexValue>, qs: seq<string>, ln: real -> real,
                                        i: nat, k: nat)
    requires WellFormed(docs) && freqs == Indexed(TokenLists(docs)) && Counted(freqs)
    requires i < |docs| && k < |qs| && qs[k] in docs[i].tokens
    ensures docs[i].doc in Targets(Hits(docs, freqs, qs, ln))
  {
    if k < |qs| - 1 {
      var init, q := qs[..|qs| - 1], qs[|qs| - 1];
      assert init[k] == qs[k];
      HitsComplete(docs, freqs, init, ln, i, k);
      TargetsGrow(Hits(docs, freqs, init, ln),
        if q in freqs then PostingWrites(docs, q, freqs[q], |freqs[q].docs|, ln) else [], docs[i].doc);
    } else {
      LastTermComplete(docs, freqs, qs, ln, i);
    }
  }

  /** Every document holding the last query term is written by the search. */
  lemma LastTermComplete(docs: seq<Doc>, freqs: map<string, IndexValue>, qs: seq<string>, ln: real -> real, i: nat)
    requires WellFormed(docs) && freqs == Indexed(TokenLists(docs)) && Counted(freqs)
    requires i < |docs| && qs != [] && qs[|qs| - 1] in docs[i].tokens
    ensures docs[i].doc in Targets(Hits(docs, freqs, qs, ln))
  {
    var ws := Hits(docs, freqs, qs, ln);
    var j := PostedAt(docs, freqs, qs[|qs| - 1], i);
    var m := LastTermHit(docs, freqs, qs, ln, j);
    TargetsAt(ws);
    assert Targets(ws)[m] == docs[i].doc;
  }

  /** The document of posting `j` of the last query term is written while
      that term's postings are scored. */
  lemma LastTermHit(docs: seq<Doc>, freqs: map<string, IndexValue>, qs: seq<string>, ln: real -> real, j: nat)
    returns (m: nat)
    requires Counted(freqs) && qs != [] && qs[|qs| - 1] in freqs
    requires j < |freqs[qs[|qs| - 1]].docs| && Resolves(docs, qs[|qs| - 1], freqs[qs[|qs| - 1]])
    ensures m < |Hits(docs, freqs, qs, ln)|
    ensures Hits(docs, freqs, qs, ln)[m].target == docs[freqs[qs[|qs| - 1]].docs[j]].doc
  {
    var q := qs[|qs| - 1];
    var v := freqs[q];
    PostingHit(docs, q, v, j, ln);
    var prior := Hits(docs, freqs, qs[..|qs| - 1], ln);
    assert Hits(docs, freqs, qs, ln) == prior + PostingWrites(docs, q, v, |v.docs|, ln);
    m := |prior| + j;
  }

  /** The `j`-th posting of a term is scored by the `j`-th write. */
  lemma PostingHit(docs: seq<Doc>, q: string, v: IndexValue, j: nat, ln: real -> real)
    requires j < |v.docs| == v.freq && Resolves(docs, q, v)
    ensures j < |PostingWrites(docs, q, v, |v.docs|, ln)|
    ensures PostingWrites(docs, q, v, |v.docs|, ln)[j].target == docs[v.docs[j]].doc
  {
    PostingWritesAll(docs, q, v, |v.docs|, ln);
  }

  /** A term of document `i` has an entry whose postings include `i`. */
  lemma PostedAt(docs: seq<Doc>, freqs: map<string, IndexValue>, q: string, i: nat) returns (j: nat)
    requires WellFormed(docs) && freqs == Indexed(TokenLists(docs))
    requires i < |docs| && q in docs[i].tokens
    ensures q in freqs && j < |freqs[q].docs| && freqs[q].docs[j] == i
    ensures freqs[q].freq == |freqs[q].docs| && Resolves(docs, q, freqs[q])
  {
    PostingsResolve(docs, freqs);
    var ts := TokenLists(docs);
    IndexedIsPostings(ts);
    assert q in ts[i];
    assert Get(freqs, q) == freqs[q];
    PostingsCounts(ts, q);
    assert multiset(freqs[q].docs)[i] > 0;
    j :| 0 <= j < |freqs[q].docs| && freqs[q].docs[j] == i;
  }

  /** A document that holds none of the query terms is not returned and keeps
      the operator's default rank. */
  lemma UnmatchedKeepsDefault(docs: seq<Doc>, freqs: map<string, IndexValue>, qs: seq<string>, ln: real -> real,
                              o: Rankable, init: real)
    requires WellFormed(docs) && freqs == Indexed(TokenLists(docs)) && Counted(freqs)
    requires forall i, k :: 0 <= i < |docs| && 0 <= k < |qs| && docs[i].doc == o ==> qs[k] !in docs[i].tokens
    ensures o !in Targets(Hits(docs, freqs, qs, ln))
    ensures LastWrite(Hits(docs, freqs, qs, ln), o, init) == init
  {
    var ws := Hits(docs, freqs, qs, ln);
    HitsSound(docs, freqs, qs, ln);
    TargetsAt(ws);
    LastWriteWins(ws, o, init);
    forall m | 0 <= m < |ws| ensures ws[m].target != o {
      assert ws[m] in ws;
    }
  }
}
