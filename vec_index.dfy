/** The older `FrequencyIndex` of src/search/vec.ts, its `sum` helper and the
    free-standing `tfidf`. The corpus map counts every occurrence of a term;
    `search` rescores only the first `ndocs` documents, each by folding the
    operator over the query, and returns all documents ordered by rank. */
module VecIndex {
  import opened Tokenizer
  import opened Counting
  import opened Ranking
  import opened Wrappers

  /** The total of a list of numbers. */
  function SeqSum(vals: seq<real>): real {
    if vals == [] then 0.0 else SeqSum(vals[..|vals| - 1]) + vals[|vals| - 1]
  }

  /** Summing a concatenation sums the parts. */
  lemma {:induction false} SeqSumAppend(a: seq<real>, b: seq<real>)
    ensures SeqSum(a + b) == SeqSum(a) + SeqSum(b)
    decreases |b|
  {
    if b != [] {
      var n := |b| - 1;
      assert (a + b)[..|a + b| - 1] == a + b[..n];
      assert SeqSum(a + b) == SeqSum(a + b[..n]) + b[n];
      assert SeqSum(b) == SeqSum(b[..n]) + b[n];
      SeqSumAppend(a, b[..n]);
    } else {
      assert a + b == a;
    }
  }

  /** `sum`: one running total over the list. */
  method Sum(vals: seq<real>) returns (ret: real)
    ensures ret == SeqSum(vals)
  {
    ret := 0.0;
    for i := 0 to |vals|
      invariant ret == SeqSum(vals[..i])
    {
      assert vals[..i + 1][..i] == vals[..i];
      ret := ret + vals[i];
    }
    assert vals[..|vals|] == vals;
  }

  /** A document record: the caller's document and its vec.ts tokens. */
  datatype Doc = Doc(doc: Rankable, tokens: seq<string>)

  predicate Tokenized(rec: Doc) {
    rec.tokens == TokenizeVec(rec.doc.body)
  }

  predicate WellFormed(docs: seq<Doc>) {
    forall i :: 0 <= i < |docs| ==> Tokenized(docs[i])
  }

  function TokenLists(docs: seq<Doc>): (r: seq<seq<string>>)
    ensures |r| == |docs| && forall i :: 0 <= i < |docs| ==> r[i] == docs[i].tokens
  {
    seq(|docs|, i requires 0 <= i < |docs| => docs[i].tokens)
  }

  /** The documents in index order. */
  function Objects(docs: seq<Doc>): (r: seq<Rankable>)
    ensures |r| == |docs| && forall i :: 0 <= i < |docs| ==> r[i] == docs[i].doc
  {
    seq(|docs|, i requires 0 <= i < |docs| => docs[i].doc)
  }

  function Docs(docs: seq<Doc>): set<Rankable> {
    set i | 0 <= i < |docs| :: docs[i].doc
  }

  /** No document object is indexed twice. */
  predicate Distinct(docs: seq<Doc>) {
    forall i, j :: 0 <= i < j < |docs| ==> docs[i].doc != docs[j].doc
  }

  predicate Positive(m: map<string, nat>) {
    forall t :: t in m ==> m[t] > 0
  }

  /** A count map never holds a zero count. */
  lemma CountMapPositive(values: seq<string>)
    ensures Positive(CountMap(values))
  {
    forall t | t in CountMap(values) ensures CountMap(values)[t] > 0 {
      assert t in values;
    }
  }

  /** `maxfreq` (or `maxcount`) after the token loop: the running maximum of
      the counts reached, one token at a time. */
  function MaxCount(toks: seq<string>): (r: nat)
    ensures forall t :: multiset(toks)[t] <= r
  {
    if toks == [] then 0
    else
      var n := |toks| - 1;
      var before := MaxCount(toks[..n]);
      assert toks == toks[..n] + [toks[n]];
      var c := multiset(toks)[toks[n]];
      if c > before then c else before
  }

  /** The running maximum is reached: some token has exactly that count. */
  lemma {:induction false} MaxCountReached(toks: seq<string>)
    requires toks != []
    ensures exists t :: t in toks && multiset(toks)[t] == MaxCount(toks)
  {
    var n := |toks| - 1;
    var init := toks[..n];
    assert toks == init + [toks[n]];
    assert toks[n] in toks;
    if MaxCount(toks) != multiset(toks)[toks[n]] {
      assert MaxCount(toks) == MaxCount(init) > multiset(toks)[toks[n]] > 0;
      MaxCountReached(init);
      var t :| t in init && multiset(init)[t] == MaxCount(init);
      assert t != toks[n];
      assert t in toks;
    }
  }

  /** The weight of one query term: `tf / maxfreq * log(n / idf)`, with `ln`
      standing for `Math.log`. */
  function Weight(tf: nat, maxfreq: nat, n: nat, idf: nat, ln: real -> real): real
    requires maxfreq > 0 && idf > 0
  {
    (tf as real / maxfreq as real) * ln(n as real / idf as real)
  }

  /** The query fold of `search`: start from `op.defaultRank` and apply
      `op.process` for every query term, in order, that the document's counts
      `tfs` and the corpus map both hold. */
  function RankFold(qs: seq<string>, tfs: map<string, nat>, maxfreq: nat, freqs: map<string, nat>,
                    n: nat, op: Op, ln: real -> real): real
    requires Positive(freqs)
    requires forall t :: t in tfs ==> 0 < tfs[t] <= maxfreq
  {
    if qs == [] then op.DefaultRank()
    else
      var rank := RankFold(qs[..|qs| - 1], tfs, maxfreq, freqs, n, op, ln);
      var q := qs[|qs| - 1];
      if q in freqs && q in tfs then op.Process(rank, Weight(tfs[q], maxfreq, n, freqs[q], ln))
      else rank
  }

  /** The rank `search` writes for a document with tokens `toks`. */
  function DocRank(toks: seq<string>, freqs: map<string, nat>, n: nat, qs: seq<string>, op: Op, ln: real -> real): real
    requires Positive(freqs)
  {
    RankFold(qs, CountMap(toks), MaxCount(toks), freqs, n, op, ln)
  }

  /** A document that shares no query term with the corpus map keeps exactly
      the default rank. */
  lemma {:induction false} UnmatchedDefault(qs: seq<string>, tfs: map<string, nat>, maxfreq: nat,
                                            freqs: map<string, nat>, n: nat, op: Op, ln: real -> real)
    requires Positive(freqs)
    requires forall t :: t in tfs ==> 0 < tfs[t] <= maxfreq
    requires forall k :: 0 <= k < |qs| ==> qs[k] !in tfs || qs[k] !in freqs
    ensures RankFold(qs, tfs, maxfreq, freqs, n, op, ln) == op.DefaultRank()
  {
    if qs != [] {
      UnmatchedDefault(qs[..|qs| - 1], tfs, maxfreq, freqs, n, op, ln);
    }
  }

  /** A document none of whose tokens is a query term gets `op.defaultRank`. */
  lemma NoSharedTokenDefault(toks: seq<string>, freqs: map<string, nat>, n: nat, qs: seq<string>, op: Op, ln: real -> real)
    requires Positive(freqs)
    requires forall k :: 0 <= k < |qs| ==> qs[k] !in toks
    ensures DocRank(toks, freqs, n, qs, op, ln) == op.DefaultRank()
  {
    UnmatchedDefault(qs, CountMap(toks), MaxCount(toks), freqs, n, op, ln);
  }

  /** The `setRank` calls of `search`: one per document among the first `k`,
      in index order, each scored with `ndocs` = `n`. */
  function RankWrites(docs: seq<Doc>, k: nat, n: nat, freqs: map<string, nat>, qs: seq<string>,
                      op: Op, ln: real -> real): seq<Write>
    requires k <= |docs| && Positive(freqs)
  {
    if k == 0 then []
    else RankWrites(docs, k - 1, n, freqs, qs, op, ln) + [Write(docs[k - 1].doc, DocRank(docs[k - 1].tokens, freqs, n, qs, op, ln))]
  }

  /** With no document indexed twice, `search` sets each of the first `k`
      documents to its own rank and leaves every later one as it was. */
  lemma {:induction false} RankedOnce(docs: seq<Doc>, k: nat, n: nat, freqs: map<string, nat>, qs: seq<string>,
                                      op: Op, ln: real -> real, i: nat, init: real)
    requires k <= |docs| && Positive(freqs) && Distinct(docs) && i < |docs|
    ensures LastWrite(RankWrites(docs, k, n, freqs, qs, op, ln), docs[i].doc, init) ==
      if i < k then DocRank(docs[i].tokens, freqs, n, qs, op, ln) else init
  {
    if k > 0 {
      RankedOnce(docs, k - 1, n, freqs, qs, op, ln, i, init);
    }
  }

  /** The calls target exactly the first `k` documents, in index order. */
  lemma {:induction false} RankWritesTargets(docs: seq<Doc>, k: nat, n: nat, freqs: map<string, nat>, qs: seq<string>,
                                             op: Op, ln: real -> real)
    requires k <= |docs| && Positive(freqs)
    ensures Targets(RankWrites(docs, k, n, freqs, qs, op, ln)) == Objects(docs[..k])
  {
    if k > 0 {
      RankWritesTargets(docs, k - 1, n, freqs, qs, op, ln);
      var ws := RankWrites(docs, k - 1, n, freqs, qs, op, ln);
      LastWriteSnoc(ws, Write(docs[k - 1].doc, DocRank(docs[k - 1].tokens, freqs, n, qs, op, ln)), 0.0);
      assert Objects(docs[..k]) == Objects(docs[..k - 1]) + [docs[k - 1].doc];
    }
  }

  /** The counting loop over a list of tokens, continuing from the counts of
      the tokens `seen` before. */
  method CountTokens(ghost seen: seq<string>, fr: map<string, nat>, toks: seq<string>) returns (r: map<string, nat>)
    requires fr == CountMap(seen)
    ensures r == CountMap(seen + toks)
  {
    r := fr;
    ghost var counted := seen;
    for j := 0 to |toks|
      invariant counted == seen + toks[..j]
      invariant r == CountMap(counted)
    {
      var count := if toks[j] in r then r[toks[j]] else 0;
      CountMapSnoc(counted, toks[j]);
      assert toks[..j + 1] == toks[..j] + [toks[j]];
      r, counted := r[toks[j] := count + 1], counted + [toks[j]];
    }
    assert toks[..|toks|] == toks;
  }

  /** The corpus counting loop of the constructor and of `tfidf`. */
  method CountCorpus(ts: seq<seq<string>>) returns (fr: map<string, nat>)
    ensures fr == CountMap(Flatten(ts))
  {
    fr := map[];
    for i := 0 to |ts|
      invariant fr == CountMap(Flatten(ts[..i]))
    {
      assert ts[..i + 1][..i] == ts[..i];
      fr := CountTokens(Flatten(ts[..i]), fr, ts[i]);
    }
    assert ts[..|ts|] == ts;
  }

  /** The per-document loop of `search` and `tfidf`: the counts of this
      document's tokens alone, starting from an empty map, and their running
      maximum. */
  method TermCounts(toks: seq<string>) returns (tfs: map<string, nat>, maxfreq: nat)
    ensures tfs == CountMap(toks) && maxfreq == MaxCount(toks)
    ensures forall t :: t in tfs ==> 0 < tfs[t] <= maxfreq
  {
    tfs, maxfreq := map[], 0;
    ghost var counted: seq<string> := [];
    for j := 0 to |toks|
      invariant counted == toks[..j]
      invariant tfs == CountMap(counted) && maxfreq == MaxCount(counted)
    {
      var count := if toks[j] in tfs then tfs[toks[j]] else 0;
      count := count + 1;
      CountStep(counted, toks[j]);
      if count > maxfreq {
        maxfreq := count;
      }
      tfs, counted := tfs[toks[j] := count], counted + [toks[j]];
      assert toks[..j + 1] == toks[..j] + [toks[j]];
    }
    assert toks[..|toks|] == toks;
    CountsBounded(toks);
  }

  /** One more token: its count goes up by one and the running maximum takes
      the new count into account. */
  lemma CountStep(seen: seq<string>, t: string)
    ensures CountMap(seen + [t]) == CountMap(seen)[t := Count(CountMap(seen), t) + 1]
    ensures MaxCount(seen + [t]) ==
      if Count(CountMap(seen), t) + 1 > MaxCount(seen) then Count(CountMap(seen), t) + 1 else MaxCount(seen)
  {
    CountMapSnoc(seen, t);
    assert (seen + [t])[..|seen|] == seen;
  }

  /** Every count of a document lies between 1 and the running maximum. */
  lemma CountsBounded(toks: seq<string>)
    ensures forall t :: t in CountMap(toks) ==> 0 < CountMap(toks)[t] <= MaxCount(toks)
  {
    forall t | t in CountMap(toks) ensures 0 < CountMap(toks)[t] <= MaxCount(toks) {
      assert t in toks;
    }
  }

  /** The rank of one document: its counts, then the query fold. */
  method DocumentRank(toks: seq<string>, freqs: map<string, nat>, n: nat, qs: seq<string>, op: Op, ln: real -> real)
    returns (rank: real)
    requires Positive(freqs)
    ensures rank == DocRank(toks, freqs, n, qs, op, ln)
  {
    var tfs, maxfreq := TermCounts(toks);
    rank := op.DefaultRank();
    for j := 0 to |qs|
      invariant rank == RankFold(qs[..j], tfs, maxfreq, freqs, n, op, ln)
    {
      assert qs[..j + 1][..j] == qs[..j];
      var q := qs[j];
      if q in tfs && q in freqs {
        rank := op.Process(rank, Weight(tfs[q], maxfreq, n, freqs[q], ln));
      }
    }
    assert qs[..|qs|] == qs;
  }

  /** A document and its tokens. */
  method MakeRecord(d: Rankable) returns (rec: Doc)
    ensures rec.doc == d && Tokenized(rec)
  {
    rec := Doc(d, TokenizeVec(d.body));
  }

  /** The records of the constructor, in the order given. */
  method MakeRecords(ds: seq<Rankable>) returns (recs: seq<Doc>)
    ensures WellFormed(recs) && Objects(recs) == ds
  {
    recs := [];
    for i := 0 to |ds|
      invariant WellFormed(recs) && Objects(recs) == ds[..i]
    {
      var rec := MakeRecord(ds[i]);
      assert Objects(recs + [rec]) == Objects(recs) + [rec.doc];
      recs := recs + [rec];
      assert ds[..i + 1] == ds[..i] + [ds[i]];
    }
    assert ds[..|ds|] == ds;
  }

  /** One more record adds its tokens at the end of the corpus. */
  lemma TokensSnoc(docs: seq<Doc>, rec: Doc)
    ensures Flatten(TokenLists(docs + [rec])) == Flatten(TokenLists(docs)) + rec.tokens
  {
    assert TokenLists(docs + [rec])[..|docs|] == TokenLists(docs);
  }

  lemma AppendRecord(docs: seq<Doc>, rec: Doc)
    requires WellFormed(docs) && Tokenized(rec)
    ensures WellFormed(docs + [rec])
  {
    assert forall i :: 0 <= i < |docs| ==> (docs + [rec])[i] == docs[i];
  }

  /** Counting more tokens adds their occurrences to the counts so far. */
  lemma CountAppend(seen: seq<string>, toks: seq<string>)
    ensures forall t :: Count(CountMap(seen + toks), t) == Count(CountMap(seen), t) + multiset(toks)[t]
  {
    assert multiset(seen + toks) == multiset(seen) + multiset(toks);
  }

  class FrequencyIndex {
    var freqs: map<string, nat>
    var ndocs: nat
    const op: Op
    var documents: seq<Doc>

    /** Every record holds its document's tokens, the corpus map counts every
        occurrence of every token of every record, and `ndocs` never exceeds
        the number of records. */
    predicate Valid()
      reads this
    {
      WellFormed(documents) && freqs == CountMap(Flatten(TokenLists(documents))) && ndocs <= |documents|
    }

    function Rankables(): set<Rankable>
      reads this
    {
      Docs(documents)
    }

    /** `new FrequencyIndex(docs, options)`: without documents the index is
        empty; otherwise it records every document with its tokens, counts
        the corpus, and sets `ndocs` to the number of documents. */
    constructor (docs: Option<seq<Rankable>>, op: Op)
      ensures Valid() && this.op == op
      ensures docs.None? ==> ndocs == 0 && documents == []
      ensures docs.Some? ==> ndocs == |docs.value| && Objects(documents) == docs.value
    {
      this.op := op;
      if docs.None? {
        ndocs := 0;
        documents := [];
        freqs := map[];
      } else {
        ndocs := |docs.value|;
        var recs := MakeRecords(docs.value);
        var fr := CountCorpus(TokenLists(recs));
        documents := recs;
        freqs := fr;
      }
    }

    /** `add(doc)`: the record goes at the end and the corpus map gains one
        count per occurrence of each of its tokens; `ndocs` stays as it was,
        so `search` never rescores the new document. */
    method Add(d: Rankable)
      requires Valid()
      modifies this
      ensures Valid()
      ensures documents == old(documents) + [Doc(d, TokenizeVec(d.body))]
      ensures ndocs == old(ndocs)
      ensures forall t :: Count(freqs, t) == Count(old(freqs), t) + multiset(TokenizeVec(d.body))[t]
    {
      documents, freqs := AppendDocument(documents, freqs, d);
    }

    /** `search(query)`: the first `ndocs` documents get their ranks in index
        order (so with a document indexed twice, the later rank stands);
        every document is returned once, highest rank first. */
    method Search(query: Query, ln: real -> real) returns (result: seq<Rankable>)
      requires Valid()
      modifies Rankables()
      ensures Valid() && Positive(freqs)
      ensures forall o :: o in Rankables() ==>
        o.rank == LastWrite(RankWrites(documents, ndocs, ndocs, freqs, QueryTerms(query, true), op, ln), o, old(o.rank))
      ensures multiset(result) == multiset(Objects(documents))
      ensures SortedByRank(result)
    {
      var qs := QueryTerms(query, true);
      CountMapPositive(Flatten(TokenLists(documents)));
      ghost var init := map o | o in Docs(documents) :: o.rank;
      RankDocuments(documents, ndocs, freqs, qs, op, ln, init);
      result := SortByRank(Objects(documents));
    }
  }

  /** The body of `add`: the new record and the counts of its tokens. */
  method AppendDocument(docs: seq<Doc>, freqs: map<string, nat>, d: Rankable)
    returns (docs': seq<Doc>, freqs': map<string, nat>)
    requires WellFormed(docs) && freqs == CountMap(Flatten(TokenLists(docs)))
    ensures WellFormed(docs') && freqs' == CountMap(Flatten(TokenLists(docs')))
    ensures docs' == docs + [Doc(d, TokenizeVec(d.body))]
    ensures forall t :: Count(freqs', t) == Count(freqs, t) + multiset(TokenizeVec(d.body))[t]
  {
    var rec := Doc(d, TokenizeVec(d.body));
    ghost var seen := Flatten(TokenLists(docs));
    freqs' := CountTokens(seen, freqs, rec.tokens);
    TokensSnoc(docs, rec);
    CountAppend(seen, rec.tokens);
    AppendRecord(docs, rec);
    docs' := docs + [rec];
  }

  /** The scoring loop of `search`. */
  method RankDocuments(docs: seq<Doc>, n: nat, freqs: map<string, nat>, qs: seq<string>, op: Op,
                       ln: real -> real, ghost init: map<Rankable, real>)
    requires n <= |docs| && Positive(freqs)
    requires forall o :: o in Docs(docs) ==> o in init && o.rank == init[o]
    modifies Docs(docs)
    ensures forall o :: o in Docs(docs) ==> o.rank == LastWrite(RankWrites(docs, n, n, freqs, qs, op, ln), o, init[o])
  {
    for i := 0 to n
      invariant forall o :: o in Docs(docs) ==> o.rank == LastWrite(RankWrites(docs, i, n, freqs, qs, op, ln), o, init[o])
    {
      var rank := DocumentRank(docs[i].tokens, freqs, n, qs, op, ln);
      SetRank(docs, docs[i].doc, rank, RankWrites(docs, i, n, freqs, qs, op, ln), init);
    }
  }

  /** `setRank(value)` on one document, recorded as the next call. */
  method SetRank(docs: seq<Doc>, d: Rankable, value: real, ghost ws: seq<Write>, ghost init: map<Rankable, real>)
    requires d in Docs(docs)
    requires forall o :: o in Docs(docs) ==> o in init && o.rank == LastWrite(ws, o, init[o])
    modifies d
    ensures forall o :: o in Docs(docs) ==> o.rank == LastWrite(ws + [Write(d, value)], o, init[o])
  {
    forall o | o in Docs(docs) ensures LastWrite(ws + [Write(d, value)], o, init[o]) ==
      if o == d then value else LastWrite(ws, o, init[o])
    {
      LastWriteSnoc(ws, Write(d, value), init[o]);
    }
    d.rank := value;
  }

  /** Highest rank first. */
  predicate SortedByRank(s: seq<Rankable>)
    reads s
  {
    forall i, j :: 0 <= i < j < |s| ==> s[i].rank >= s[j].rank
  }

  /** The final `sort` by descending `getRank()`, as an insertion sort that
      places each document after every document of at least its rank. */
  method SortByRank(xs: seq<Rankable>) returns (r: seq<Rankable>)
    ensures multiset(r) == multiset(xs)
    ensures SortedByRank(r)
  {
    r := [];
    for i := 0 to |xs|
      invariant multiset(r) == multiset(xs[..i])
      invariant SortedByRank(r)
    {
      r := Insert(r, xs[i]);
      assert xs[..i + 1] == xs[..i] + [xs[i]];
    }
    assert xs[..|xs|] == xs;
  }

  /** One step of the sort: `x` goes after every document of at least its
      rank and before every document of a lower one. */
  method Insert(r: seq<Rankable>, x: Rankable) returns (s: seq<Rankable>)
    requires SortedByRank(r)
    ensures multiset(s) == multiset(r) + multiset{x}
    ensures SortedByRank(s)
  {
    var p := |r|;
    while p > 0 && r[p - 1].rank < x.rank
      invariant 0 <= p <= |r|
      invariant forall k :: p <= k < |r| ==> r[k].rank < x.rank
    {
      p := p - 1;
    }
    s := r[..p] + [x] + r[p..];
    InsertAt(r, x, p);
  }

  lemma Inserted<T>(r: seq<T>, x: T, p: nat)
    requires p <= |r|
    ensures multiset(r[..p] + [x] + r[p..]) == multiset(r) + multiset{x}
  {
    assert r == r[..p] + r[p..];
  }

  /** Placing `x` between the documents of at least its rank and those of a
      lower one keeps the order and adds exactly `x`. */
  lemma InsertAt(r: seq<Rankable>, x: Rankable, p: nat)
    requires SortedByRank(r) && p <= |r|
    requires p > 0 ==> r[p - 1].rank >= x.rank
    requires forall k :: p <= k < |r| ==> r[k].rank < x.rank
    ensures multiset(r[..p] + [x] + r[p..]) == multiset(r) + multiset{x}
    ensures SortedByRank(r[..p] + [x] + r[p..])
  {
    Inserted(r, x, p);
    var s := r[..p] + [x] + r[p..];
    assert forall k :: 0 <= k < p ==> s[k] == r[k];
    assert s[p] == x;
    assert forall k :: p < k < |s| ==> s[k] == r[k - 1];
    forall i, j | 0 <= i < j < |s| ensures s[i].rank >= s[j].rank {
      if j < p {
        assert s[i] == r[i] && s[j] == r[j];
      } else if j == p {
        assert s[i] == r[i] && r[i].rank >= r[p - 1].rank;
      } else if i < p {
        assert s[i] == r[i] && s[j] == r[j - 1];
      } else if i == p {
        assert s[j] == r[j - 1];
      } else {
        assert s[i] == r[i - 1] && s[j] == r[j - 1];
      }
    }
  }

  /** The query sum of `tfidf`: each term the document's counts and the
      corpus counts both hold adds its weight, starting from 0. */
  function TfidfSum(qs: seq<string>, tfs: map<string, nat>, maxcount: nat, idfs: map<string, nat>,
                    n: nat, ln: real -> real): real
    requires Positive(idfs)
    requires forall t :: t in tfs ==> 0 < tfs[t] <= maxcount
  {
    if qs == [] then 0.0
    else
      var q := qs[|qs| - 1];
      TfidfSum(qs[..|qs| - 1], tfs, maxcount, idfs, n, ln) +
        (if q in idfs && q in tfs then Weight(tfs[q], maxcount, n, idfs[q], ln) else 0.0)
  }

  /** The ranking of document `i` by `tfidf`. */
  function TfidfRank(docs: seq<seq<string>>, i: nat, qs: seq<string>, ln: real -> real): real
    requires i < |docs|
  {
    CountMapPositive(Flatten(docs));
    TfidfSum(qs, CountMap(docs[i]), MaxCount(docs[i]), CountMap(Flatten(docs)), |docs|, ln)
  }

  /** `tfidf` ranks a document exactly as an "or" index over the same
      documents ranks it. */
  lemma {:induction false} TfidfIsOrFold(qs: seq<string>, tfs: map<string, nat>, maxcount: nat,
                                         idfs: map<string, nat>, n: nat, ln: real -> real)
    requires Positive(idfs)
    requires forall t :: t in tfs ==> 0 < tfs[t] <= maxcount
    ensures TfidfSum(qs, tfs, maxcount, idfs, n, ln) == RankFold(qs, tfs, maxcount, idfs, n, Or, ln)
  {
    if qs != [] {
      TfidfIsOrFold(qs[..|qs| - 1], tfs, maxcount, idfs, n, ln);
    }
  }

  /** A document sharing no token with the query ranks 0. */
  lemma {:induction false} TfidfUnmatched(qs: seq<string>, tfs: map<string, nat>, maxcount: nat,
                                          idfs: map<string, nat>, n: nat, ln: real -> real)
    requires Positive(idfs)
    requires forall t :: t in tfs ==> 0 < tfs[t] <= maxcount
    requires forall k :: 0 <= k < |qs| ==> qs[k] !in tfs
    ensures TfidfSum(qs, tfs, maxcount, idfs, n, ln) == 0.0
  {
    if qs != [] {
      TfidfUnmatched(qs[..|qs| - 1], tfs, maxcount, idfs, n, ln);
    }
  }

  /** `tfidf(docs, query)`: one ranking per document, each the query sum of
      that document's counts against the corpus counts. */
  method Tfidf(docs: seq<seq<string>>, query: string, ln: real -> real) returns (rankings: array<real>)
    ensures fresh(rankings) && rankings.Length == |docs|
    ensures forall i :: 0 <= i < |docs| ==> rankings[i] == TfidfRank(docs, i, TokenizeVec(query), ln)
  {
    var qs := TokenizeVec(query);
    rankings := new real[|docs|];
    var idfs := CountCorpus(docs);
    CountMapPositive(Flatten(docs));
    for i := 0 to |docs|
      invariant forall k :: 0 <= k < i ==> rankings[k] == TfidfRank(docs, k, qs, ln)
    {
      var tfs, maxcount := TermCounts(docs[i]);
      AddWeights(rankings, i, qs, tfs, maxcount, idfs, |docs|, ln);
    }
  }

  /** The query loop of `tfidf` for document `i`: `rankings[i]` starts at 0
      and gains one weight per term both maps hold. */
  method AddWeights(rankings: array<real>, i: nat, qs: seq<string>, tfs: map<string, nat>, maxcount: nat,
                    idfs: map<string, nat>, n: nat, ln: real -> real)
    requires i < rankings.Length && Positive(idfs)
    requires forall t :: t in tfs ==> 0 < tfs[t] <= maxcount
    modifies rankings
    ensures rankings[i] == TfidfSum(qs, tfs, maxcount, idfs, n, ln)
    ensures forall k :: 0 <= k < rankings.Length && k != i ==> rankings[k] == old(rankings[k])
  {
    rankings[i] := 0.0;
    for j := 0 to |qs|
      invariant rankings[i] == TfidfSum(qs[..j], tfs, maxcount, idfs, n, ln)
      invariant forall k :: 0 <= k < rankings.Length && k != i ==> rankings[k] == old(rankings[k])
    {
      assert qs[..j + 1][..j] == qs[..j];
      var q := qs[j];
      if q in tfs && q in idfs {
        rankings[i] := rankings[i] + Weight(tfs[q], maxcount, n, idfs[q], ln);
      }
    }
    assert qs[..|qs|] == qs;
  }
}
