/** String helpers shared by the tokenizers, the n-gram splitter and soundex:
    ASCII case mapping, JavaScript's `split(" ")` and a literal global replace. */
module Text {

  /** `toLowerCase` restricted to ASCII: only 'A'..'Z' change. */
  function LowerChar(c: char): char {
    if 'A' <= c <= 'Z' then (c as int + 32) as char else c
  }

  /** `toUpperCase` restricted to ASCII: only 'a'..'z' change. */
  function UpperChar(c: char): char {
    if 'a' <= c <= 'z' then (c as int - 32) as char else c
  }

  predicate IsAsciiUpper(c: char) { 'A' <= c <= 'Z' }

  /** A global replace whose every match is one character and whose
      replacement is one character: a character-by-character map. */
  function MapChars(s: string, f: char -> char): (r: string)
    ensures |r| == |s|
    ensures forall i :: 0 <= i < |s| ==> r[i] == f(s[i])
  {
    seq(|s|, i requires 0 <= i < |s| => f(s[i]))
  }

  /** Every character of a mapped string is the image of one of the input's. */
  lemma MapCharsFrom(s: string, f: char -> char, c: char)
    requires c in MapChars(s, f)
    ensures exists d :: d in s && f(d) == c
  {
    var i :| 0 <= i < |s| && MapChars(s, f)[i] == c;
    assert s[i] in s;
  }

  /** `toLowerCase` over ASCII. */
  function Lower(s: string): string {
    MapChars(s, LowerChar)
  }

  /** Joins pieces with a single space between them: the inverse of `Split`. */
  function Join(pieces: seq<string>): string
    requires |pieces| >= 1
  {
    if |pieces| == 1 then pieces[0] else pieces[0] + " " + Join(pieces[1..])
  }

  /** JavaScript's `s.split(" ")`: the maximal space-free runs between single
      spaces, empty pieces included, so there is always at least one piece. */
  function Split(s: string): (r: seq<string>)
    ensures |r| >= 1
    ensures forall i :: 0 <= i < |r| ==> ' ' !in r[i]
    ensures Join(r) == s
  {
    if s == [] then [[]]
    else
      var rest := Split(s[1..]);
      if s[0] == ' ' then [[]] + rest
      else [[s[0]] + rest[0]] + rest[1..]
  }

  /** Every character of every piece of `Split(s)` is a character of `s`. */
  lemma {:induction false} SplitChars(s: string)
    ensures forall i, c :: 0 <= i < |Split(s)| && c in Split(s)[i] ==> c in s
  {
    if s != [] {
      SplitChars(s[1..]);
      var rest := Split(s[1..]);
      forall i, c | 0 <= i < |Split(s)| && c in Split(s)[i] ensures c in s {
        assert s == [s[0]] + s[1..];
        if s[0] == ' ' {
          if i > 0 { assert c in rest[i - 1]; assert c in s[1..]; }
        } else if i == 0 {
          assert c == s[0] || c in rest[0];
          if c != s[0] { assert c in s[1..]; }
        } else {
          assert c in rest[i]; assert c in s[1..];
        }
      }
    }
  }

  /** The number of pieces is one more than the number of spaces. */
  lemma {:induction false} SplitCount(s: string)
    ensures |Split(s)| == multiset(s)[' '] + 1
  {
    if s != [] {
      SplitCount(s[1..]);
      assert s == [s[0]] + s[1..];
    }
  }

  /** A space-free string splits into itself. */
  lemma {:induction false} SplitNoSpace(s: string)
    requires ' ' !in s
    ensures Split(s) == [s]
  {
    if s != [] {
      SplitNoSpace(s[1..]);
    }
  }

  /** The literal global replace `s.replace(/p/g, r)` of a pattern without
      special characters: occurrences are found left to right and do not overlap. */
  function ReplaceAll(s: string, p: string, r: string): string
    requires |p| > 0
    decreases |s|
  {
    if |s| < |p| then s
    else if s[..|p|] == p then r + ReplaceAll(s[|p|..], p, r)
    else [s[0]] + ReplaceAll(s[1..], p, r)
  }

  /** A global replace of one character by one character is the character
      map that swaps that character and keeps every other. */
  lemma {:induction false} ReplaceOneChar(s: string, p: char, q: char)
    ensures ReplaceAll(s, [p], [q]) == MapChars(s, x => if x == p then q else x)
    decreases |s|
  {
    var m := MapChars(s, x => if x == p then q else x);
    if s != [] {
      ReplaceOneChar(s[1..], p, q);
      var tail := MapChars(s[1..], x => if x == p then q else x);
      assert s[..1] == [s[0]];
      assert m == [m[0]] + tail by {
        forall k | 0 <= k < |tail| ensures m[k + 1] == tail[k] {
          assert s[k + 1] == s[1..][k];
        }
      }
    }
  }

  /** `p` occurs in `s` starting at position `i`. */
  predicate OccursAt(p: string, s: string, i: int) {
    0 <= i <= |s| - |p| && s[i..i + |p|] == p
  }

  /** `p` occurs in `s` at some position. */
  ghost predicate Occurs(p: string, s: string) {
    exists i :: OccursAt(p, s, i)
  }

  /** Replacing a pattern that does not occur leaves the text unchanged: the
      pattern is a literal sequence, not a set of characters. */
  lemma {:induction false} ReplaceAbsent(s: string, p: string, r: string)
    requires |p| > 0 && !Occurs(p, s)
    ensures ReplaceAll(s, p, r) == s
    decreases |s|
  {
    if |s| >= |p| {
      assert s[..|p|] != p by {
        assert s[0..|p|] == s[..|p|];
        assert !OccursAt(p, s, 0);
      }
      assert !Occurs(p, s[1..]) by {
        forall i | OccursAt(p, s[1..], i) ensures false {
          assert s[1..][i..i + |p|] == s[i + 1..i + 1 + |p|];
          assert OccursAt(p, s, i + 1);
        }
      }
      ReplaceAbsent(s[1..], p, r);
      assert s == [s[0]] + s[1..];
    }
  }
}
