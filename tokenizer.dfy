/** The two `tokenize` functions of the search toolkit (src/search/search.ts
    and src/search/vec.ts) and the stopword set they share. Both run the same
    chain of deletions and substitutions, lowercase, split on single spaces and
    drop empty pieces and stopwords; they differ only in the second step. */
module Tokenizer {
  import opened Text

  /** Membership in the fixed English stopword set (the same 127 words in both
      files), written as one set per word length: the same set, arranged so
      that a test looks only at the words of the right length. */
  predicate IsStopword(t: string) {
    match |t|
    case 1 => t in {"i", "a", "s", "t"}
    case 2 => t in {"me", "my", "we", "he", "it", "am", "is", "be", "do", "an", "if", "or", "as", "of", "at", "by", "to", "up", "in", "on", "no", "so"}
    case 3 => t in {"our", "you", "him", "his", "she", "her", "its", "who", "are", "was", "has", "had", "did", "the", "and", "but", "for", "out", "off", "why", "how", "all", "any", "few", "nor", "not", "own", "too", "can", "don", "now"}
    case 4 => t in {"ours", "your", "hers", "they", "them", "what", "whom", "this", "that", "were", "been", "have", "does", "with", "into", "from", "down", "over", "then", "once", "here", "when", "both", "each", "more", "most", "some", "such", "only", "same", "than", "very", "will", "just"}
    case 5 => t in {"yours", "their", "which", "these", "those", "being", "doing", "until", "while", "about", "after", "above", "below", "under", "again", "there", "where", "other"}
    case 6 => t in {"myself", "itself", "theirs", "having", "during", "before", "should"}
    case 7 => t in {"himself", "herself", "because", "against", "between", "through", "further"}
    case 8 => t in {"yourself"}
    case 9 => t in {"ourselves"}
    case 10 => t in {"yourselves", "themselves"}
    case _ => false
  }

  /** Step 1: the characters the first replace deletes. */
  predicate Deleted(c: char) {
    c == '.' || c == '\r' || c == ';' || c == ',' || c == '\U{2019}' || c == '\U{2014}'
  }

  function Strip(s: string): (r: string)
    ensures forall c :: c in r <==> c in s && !Deleted(c)
  {
    if s == [] then []
    else
      assert s == [s[0]] + s[1..];
      (if Deleted(s[0]) then [] else [s[0]]) + Strip(s[1..])
  }

  /** Step 2 of search.ts: tab, newline and underscore become a space. */
  function Blank(c: char): char {
    if c == '\t' || c == '\n' || c == '_' then ' ' else c
  }

  /** Step 2 of vec.ts: the character class `[\t\n-_]` is tab plus the RANGE
      from newline to underscore, so every character from U+0009 to U+005F
      becomes a space (digits, capitals and most ASCII punctuation included). */
  function BlankRange(c: char): char {
    if '\t' <= c <= '_' then ' ' else c
  }

  /** Steps 3 to 5: the left double quote, the en dash and the left single quote
      become their ASCII forms. None of the three outputs is matched by a later
      replace, so the three replaces act as one character map. */
  function Straighten(c: char): char {
    if c == '\U{201C}' then '"'
    else if c == '\U{2013}' then '-'
    else if c == '\U{2018}' then '\''
    else c
  }

  /** The final filter: drop empty pieces and stopwords, keep the order. */
  function Terms(pieces: seq<string>): (r: seq<string>)
    ensures forall t :: t in r <==> t in pieces && t != "" && !IsStopword(t)
    ensures |r| <= |pieces|
  {
    if pieces == [] then []
    else
      assert pieces == [pieces[0]] + pieces[1..];
      (if pieces[0] != "" && !IsStopword(pieces[0]) then [pieces[0]] else []) + Terms(pieces[1..])
  }

  /** The text after the replace chain and lowercasing, before the split. */
  function Normalized(body: string): string {
    Lower(MapChars(MapChars(Strip(body), Blank), Straighten))
  }

  function NormalizedVec(body: string): string {
    Lower(MapChars(MapChars(Strip(body), BlankRange), Straighten))
  }

  /** `tokenize` of search.ts. */
  function Tokenize(body: string): seq<string> {
    Terms(Split(Normalized(body)))
  }

  /** `tokenize` of vec.ts. */
  function TokenizeVec(body: string): seq<string> {
    Terms(Split(NormalizedVec(body)))
  }

  /** Every character of a token is a character of the split text. */
  lemma TokenCharsFrom(text: string, t: string, c: char)
    requires t in Terms(Split(text)) && c in t
    ensures c in text && c != ' '
  {
    SplitChars(text);
    var i :| 0 <= i < |Split(text)| && Split(text)[i] == t;
  }

  /** What the replace chain leaves out of a search.ts token: no space, none of
      the deleted characters, no tab, newline or underscore, none of the three
      curly forms and no ASCII capital. */
  lemma {:induction false} TokenCharacters(body: string, t: string, c: char)
    requires t in Tokenize(body) && c in t
    ensures c != ' ' && !Deleted(c) && c != '\t' && c != '\n' && c != '_'
    ensures c != '\U{201C}' && c != '\U{2013}' && c != '\U{2018}'
    ensures !IsAsciiUpper(c)
  {
    TokenCharsFrom(Normalized(body), t, c);
    var d := Origin(body, Blank, c);
    NormalizedChar(d);
  }

  /** What the chain makes of one character that step 1 keeps. */
  lemma NormalizedChar(d: char)
    requires !Deleted(d)
    ensures var c := LowerChar(Straighten(Blank(d)));
      c == ' ' ||
      (!Deleted(c) && c != '\t' && c != '\n' && c != '_' &&
       c != '\U{201C}' && c != '\U{2013}' && c != '\U{2018}' && !IsAsciiUpper(c))
  {
  }

  /** The character of the stripped text a normalized character comes from. */
  lemma Origin(body: string, blank: char -> char, c: char) returns (d: char)
    requires c in Lower(MapChars(MapChars(Strip(body), blank), Straighten))
    ensures d in body && !Deleted(d) && c == LowerChar(Straighten(blank(d)))
  {
    var blanked := MapChars(Strip(body), blank);
    MapCharsFrom(MapChars(blanked, Straighten), LowerChar, c);
    var c1 :| c1 in MapChars(blanked, Straighten) && LowerChar(c1) == c;
    MapCharsFrom(blanked, Straighten, c1);
    var c2 :| c2 in blanked && Straighten(c2) == c1;
    MapCharsFrom(Strip(body), blank, c2);
    d :| d in Strip(body) && blank(d) == c2;
  }

  /** The curly forms become their ASCII forms in search.ts tokens, and an
      ASCII hyphen survives inside a token: a lowercase word made of letters and
      hyphens that is not a stopword is its own single token. */
  lemma {:induction false} HyphenatedWord(w: string)
    requires w != "" && !IsStopword(w)
    requires forall c :: c in w ==> 'a' <= c <= 'z' || c == '-'
    ensures Tokenize(w) == [w]
  {
    assert Strip(w) == w by { StripKeeps(w); }
    forall i | 0 <= i < |w| ensures Blank(w[i]) == w[i] && Straighten(w[i]) == w[i] && LowerChar(w[i]) == w[i] {
      assert w[i] in w;
    }
    assert MapChars(w, Blank) == w;
    assert MapChars(w, Straighten) == w;
    assert Lower(w) == w;
    SplitNoSpace(w);
  }

  /** Strip leaves a string without deleted characters as it is. */
  lemma {:induction false} StripKeeps(s: string)
    requires forall c :: c in s ==> !Deleted(c)
    ensures Strip(s) == s
  {
    if s != [] {
      StripKeeps(s[1..]);
    }
  }

  /** At every position, a curly quote or dash that the first replace keeps
      comes out of either chain as its ASCII form: the left double quote as
      `"`, the en dash as `-` and the left single quote as `'`. */
  lemma CurlyForms(body: string, i: nat)
    requires i < |Strip(body)|
    ensures |Normalized(body)| == |Strip(body)| && |NormalizedVec(body)| == |Strip(body)|
    ensures Strip(body)[i] == '\U{201C}' ==> Normalized(body)[i] == '"' && NormalizedVec(body)[i] == '"'
    ensures Strip(body)[i] == '\U{2013}' ==> Normalized(body)[i] == '-' && NormalizedVec(body)[i] == '-'
    ensures Strip(body)[i] == '\U{2018}' ==> Normalized(body)[i] == '\'' && NormalizedVec(body)[i] == '\''
  {
    CurlyStraightened(Strip(body), Blank, i);
    CurlyStraightened(Strip(body), BlankRange, i);
  }

  /** Whatever the second step does, so long as it leaves the three curly
      forms alone, the straightening steps and lowercasing turn each of them,
      wherever it stands, into its ASCII form. */
  lemma CurlyStraightened(s: string, blank: char -> char, i: nat)
    requires i < |s|
    requires blank('\U{201C}') == '\U{201C}' && blank('\U{2013}') == '\U{2013}' && blank('\U{2018}') == '\U{2018}'
    ensures var m := Lower(MapChars(MapChars(s, blank), Straighten));
      |m| == |s| &&
      (s[i] == '\U{201C}' ==> m[i] == '"') &&
      (s[i] == '\U{2013}' ==> m[i] == '-') &&
      (s[i] == '\U{2018}' ==> m[i] == '\'')
  {
    var b := MapChars(s, blank);
    var t := MapChars(b, Straighten);
    assert t[i] == Straighten(blank(s[i]));
    assert Lower(t)[i] == LowerChar(t[i]);
  }

  /** Steps 3 to 5 are three global replaces of one character by one
      character; since no replacement is matched by a later step, together
      they are the single map `Straighten`. */
  lemma StraightenIsReplaces(s: string)
    ensures ReplaceAll(ReplaceAll(ReplaceAll(s, "\U{201C}", "\""), "\U{2013}", "-"), "\U{2018}", "'") ==
            MapChars(s, Straighten)
  {
    var f1 := x => if x == '\U{201C}' then '"' else x;
    var f2 := x => if x == '\U{2013}' then '-' else x;
    var f3 := x => if x == '\U{2018}' then '\'' else x;
    ReplaceOneChar(s, '\U{201C}', '"');
    var s1 := MapChars(s, f1);
    ReplaceOneChar(s1, '\U{2013}', '-');
    var s2 := MapChars(s1, f2);
    ReplaceOneChar(s2, '\U{2018}', '\'');
    var s3 := MapChars(s2, f3);
    assert s3 == MapChars(s, Straighten) by {
      forall k | 0 <= k < |s| ensures s3[k] == Straighten(s[k]) {
        assert s3[k] == f3(f2(f1(s[k])));
      }
    }
  }

  /** The range class of vec.ts: a token character in U+0009..U+005F can only
      be one of the ASCII forms produced by the straightening step, and then
      the input held the matching curly form. In particular vec.ts tokens hold
      no ASCII digit and no ASCII capital. */
  lemma {:induction false} VecTokenCharacters(body: string, t: string, c: char)
    requires t in TokenizeVec(body) && c in t
    ensures '\t' <= c <= '_' ==>
              (c == '"' && '\U{201C}' in body) ||
              (c == '-' && '\U{2013}' in body) ||
              (c == '\'' && '\U{2018}' in body)
    ensures !('0' <= c <= '9') && !IsAsciiUpper(c)
  {
    TokenCharsFrom(NormalizedVec(body), t, c);
    var d := Origin(body, BlankRange, c);
    assert c == LowerChar(Straighten(BlankRange(d)));
  }

  /** The range class in vec.ts turns capitals and digits into spaces, where
      search.ts keeps them lowercased: the course code "D1" vanishes. */
  lemma VecDropsCapitalsAndDigits()
    ensures TokenizeVec("D1") == []
    ensures Tokenize("D1") == ["d1"]
  {
    VecExample();
    PlainExample();
  }

  lemma VecExample()
    ensures TokenizeVec("D1") == []
  {
    NormalizedExample();
    assert Split("  ") == ["", "", ""] by {
      assert Split(" ") == ["", ""];
      assert "  "[1..] == " ";
    }
    assert Terms(["", "", ""]) == [];
  }

  lemma PlainExample()
    ensures Tokenize("D1") == ["d1"]
  {
    NormalizedExample();
    SplitNoSpace("d1");
    SingleTerm();
  }

  lemma SingleTerm()
    ensures Terms(["d1"]) == ["d1"]
  {
    assert !IsStopword("d1");
    assert ["d1"][1..] == [];
  }

  lemma NormalizedExample()
    ensures NormalizedVec("D1") == "  " && Normalized("D1") == "d1"
  {
    assert Strip("D1") == "D1" by { StripKeeps("D1"); }
    var m := MapChars("D1", BlankRange);
    assert m[0] == ' ' && m[1] == ' ';
    assert m == "  ";
    var m2 := MapChars(m, Straighten);
    assert m2[0] == ' ' && m2[1] == ' ';
    assert m2 == "  ";
    var m3 := Lower(m2);
    assert m3[0] == ' ' && m3[1] == ' ';
    var p := MapChars("D1", Blank);
    assert p[0] == 'D' && p[1] == '1';
    assert p == "D1";
    var p2 := MapChars(p, Straighten);
    assert p2[0] == 'D' && p2[1] == '1';
    assert p2 == "D1";
    var p3 := Lower(p2);
    assert p3[0] == 'd' && p3[1] == '1';
  }
}
