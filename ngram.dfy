/** `ngram` of src/search/ngram.ts: the text is cleaned by two literal
    replaces, lowercased and split on single spaces, and every window of `n`
    consecutive tokens becomes one gram. */
module NGrams {
  import opened Text

  /** JavaScript's `s.slice(start, end)`: a negative bound counts from the
      end, bounds are clamped to the sequence, and an empty range gives []. */
  function Slice<T>(s: seq<T>, start: int, end: int): (r: seq<T>)
    ensures 0 <= start <= end <= |s| ==> r == s[start..end]
    ensures |r| <= |s|
  {
    var from := Clamp(start, |s|);
    var to := Clamp(end, |s|);
    if from < to then s[from..to] else []
  }

  /** A slice bound as JavaScript resolves it against a length. */
  function Clamp(k: int, len: nat): (r: nat)
    ensures r <= len
    ensures 0 <= k <= len ==> r == k
  {
    if k < 0 then (if len + k < 0 then 0 else len + k) else if k > len then len else k
  }

  /** The tokens `ngram` works on: the literal sequence ".\n\r;," is deleted,
      the literal sequence "\t-_" becomes a space, the text is lowercased and
      split on single spaces, empty pieces kept. */
  function GramTokens(body: string): (r: seq<string>)
    ensures |r| >= 1
    ensures forall i :: 0 <= i < |r| ==> ' ' !in r[i]
  {
    Split(Lower(ReplaceAll(ReplaceAll(body, ".\n\r;,", ""), "\t-_", " ")))
  }

  /** `ngram(n, body)`: `grams[ix]` is filled from the top index down to 0
      with the tokens from `ix` to `ix + n`. With `n` above the number of
      tokens plus one the countdown starts below zero and never ends. */
  method NGram(n: int, body: string) returns (grams: seq<seq<string>>)
    requires n <= |GramTokens(body)| + 1
    ensures |grams| == |GramTokens(body)| - n + 1
    ensures forall i :: 0 <= i < |grams| ==> grams[i] == Slice(GramTokens(body), i, i + n)
    ensures n >= 0 ==> forall i :: 0 <= i < |grams| ==>
      |grams[i]| == n && grams[i] == GramTokens(body)[i..i + n]
    ensures n >= 1 ==> forall i :: 0 <= i < |grams| - 1 ==> grams[i + 1][..n - 1] == grams[i][1..]
  {
    var tokens := GramTokens(body);
    var count := |tokens| - n + 1;
    var a := new seq<string>[count];
    var ix := count;
    while ix != 0
      invariant 0 <= ix <= count
      invariant forall i :: ix <= i < count ==> a[i] == Slice(tokens, i, i + n)
      decreases ix
    {
      ix := ix - 1;
      a[ix] := Slice(tokens, ix, ix + n);
    }
    grams := a[..];
    if n >= 1 {
      forall i | 0 <= i < |grams| - 1 ensures grams[i + 1][..n - 1] == grams[i][1..] {
        GramsOverlap(tokens, n, i);
      }
    }
  }

  /** Consecutive grams overlap in all but one token: the next gram is this
      one shifted left by one, with the following token appended. */
  lemma GramsOverlap(tokens: seq<string>, n: nat, i: nat)
    requires n >= 1 && i + n < |tokens|
    ensures Slice(tokens, i + 1, i + 1 + n)[..n - 1] == Slice(tokens, i, i + n)[1..]
    ensures Slice(tokens, i + 1, i + 1 + n) == Slice(tokens, i, i + n)[1..] + [tokens[i + n]]
  {
  }

  /** Cleaning is by literal sequences, not by sets of characters: a text
      holding neither sequence is only lowercased and split. */
  lemma LiteralCleanup(body: string)
    requires !Occurs(".\n\r;,", body) && !Occurs("\t-_", body)
    ensures GramTokens(body) == Split(Lower(body))
  {
    ReplaceAbsent(body, ".\n\r;,", "");
    ReplaceAbsent(body, "\t-_", " ");
  }

  /** The tokens hold no ASCII capital, and joined with single spaces they
      give back the cleaned, lowercased text. */
  lemma TokensLowered(body: string)
    ensures forall i, c :: 0 <= i < |GramTokens(body)| && c in GramTokens(body)[i] ==> !IsAsciiUpper(c)
    ensures Join(GramTokens(body)) == Lower(ReplaceAll(ReplaceAll(body, ".\n\r;,", ""), "\t-_", " "))
  {
    var lowered := Lower(ReplaceAll(ReplaceAll(body, ".\n\r;,", ""), "\t-_", " "));
    SplitChars(lowered);
    forall c | c in lowered ensures !IsAsciiUpper(c) {
      MapCharsFrom(ReplaceAll(ReplaceAll(body, ".\n\r;,", ""), "\t-_", " "), LowerChar, c);
    }
  }
}
