/** `soundex` (src/search/search.ts, and the identical copy in src/search/vec.ts):
    the upper-cased first character followed by three digits from the
    American Soundex letter table. Unlike the table's published rules, a
    letter coded 0 (a vowel, H, W or Y) is skipped without separating two
    equal codes, and the first letter's own code does not suppress an equal
    code right after it: only the characters written so far are compared. */
module Soundex {
  import opened Text
  import opened Wrappers

  /** The code of each letter 'A'..'Z', in alphabet order. */
  const Mappings: string := "01230120022455012623010202"

  /** The digit a character contributes: the code of its upper-case form when
      that is a letter, nothing for any other character or a letter coded 0. */
  function Code(c: char): Option<char> {
    var u := UpperChar(c);
    if 'A' <= u <= 'Z' && Mappings[u as int - 'A' as int] != '0' then Some(Mappings[u as int - 'A' as int])
    else None
  }

  /** The codes of a text, in order. */
  function Codes(text: string): seq<char> {
    if text == [] then []
    else
      var c := Code(text[|text| - 1]);
      Codes(text[..|text| - 1]) + (if c.Some? then [c.value] else [])
  }

  /** The codes kept when a code equal to the character written just before
      it is dropped, starting after `first`. */
  function Collapse(codes: seq<char>, first: char): seq<char> {
    if codes == [] then []
    else
      var kept := Collapse(codes[..|codes| - 1], first);
      var prev := if kept == [] then first else kept[|kept| - 1];
      if codes[|codes| - 1] == prev then kept else kept + [codes[|codes| - 1]]
  }

  /** The first three kept codes, padded with '0' to three. */
  function Pad(digits: seq<char>): (r: seq<char>)
    ensures |r| == 3
  {
    if |digits| >= 3 then digits[..3] else digits + seq(3 - |digits|, _ => '0')
  }

  /** Specification of `soundex` on a non-empty text. */
  function Spec(text: string): string
    requires text != []
  {
    var first := UpperChar(text[0]);
    [first] + Pad(Collapse(Codes(text[1..]), first))
  }

  /** `soundex(text)`: `None` stands for the exception the source raises on an
      empty text, whose first character is undefined. The loop stops as soon
      as three digits are written, which is where the source breaks out. */
  method Soundex(text: string) returns (r: Option<string>)
    ensures text == [] ==> r == None
    ensures text != [] ==> r == Some(Spec(text))
  {
    if |text| == 0 {
      return None;
    }
    var s := Written(text);
    s := Padded(s);
    r := Some(s);
  }

  /** The character loop: the first character, then the kept codes, up to
      three of them. */
  method Written(text: string) returns (s: string)
    requires text != []
    ensures 1 <= |s| <= 4 && s[0] == UpperChar(text[0])
    ensures Pad(s[1..]) == Pad(Collapse(Codes(text[1..]), UpperChar(text[0])))
  {
    var first := UpperChar(text[0]);
    s := [first];
    var i := 1;
    while i < |text| && |s| <= 3
      invariant 1 <= i <= |text| && 1 <= |s| <= 4
      invariant s == [first] + Collapse(Codes(text[1..i]), first)
    {
      var c := UpperChar(text[i]) as int - 65;
      KeptStep(text, i, first, s);
      CodeIndex(text[i]);
      if 0 <= c <= 25 && Mappings[c] != '0' {
        if Mappings[c] != s[|s| - 1] {
          s := s + [Mappings[c]];
        }
      }
      i := i + 1;
    }
    Stopped(text, i, first);
    assert s[1..] == Collapse(Codes(text[1..i]), first);
  }

  /** The padding loop: '0' until there are three digits. */
  method Padded(s: string) returns (p: string)
    requires 1 <= |s| <= 4
    ensures p == [s[0]] + Pad(s[1..])
  {
    p := s;
    while |p| <= 3
      invariant |s| <= |p| <= 4
      invariant p == s + seq(|p| - |s|, _ => '0')
    {
      p := p + ['0'];
    }
    assert s == [s[0]] + s[1..];
  }

  /** Where the loop stops, the rest of the text no longer matters: either
      it is used up, or three codes are already kept. */
  lemma Stopped(text: string, i: nat, first: char)
    requires 1 <= i <= |text|
    requires |Collapse(Codes(text[1..i]), first)| <= 3
    requires i < |text| ==> |Collapse(Codes(text[1..i]), first)| == 3
    ensures Pad(Collapse(Codes(text[1..]), first)) == Pad(Collapse(Codes(text[1..i]), first))
  {
    var kept := Collapse(Codes(text[1..i]), first);
    if i < |text| {
      CodesPrefix(text[1..], i - 1);
      assert text[1..][..i - 1] == text[1..i];
      var codes := Codes(text[1..]);
      assert codes[..|Codes(text[1..i])|] == Codes(text[1..i]);
      CollapsePrefix(codes, |Codes(text[1..i])|, first);
      assert Collapse(codes, first)[..3] == kept;
    } else {
      assert text[1..i] == text[1..];
      if |kept| == 3 {
        assert kept[..3] == kept;
      }
    }
  }

  /** `Code` as the loop computes it: the letter's offset from 'A' indexes
      the table. */
  lemma CodeIndex(ch: char)
    ensures var u := UpperChar(ch) as int - 65;
      Code(ch) == if 0 <= u <= 25 && Mappings[u] != '0' then Some(Mappings[u]) else None
  {
  }

  /** One more character of the text: its code is kept when it has one and
      it differs from the last character written. */
  lemma KeptStep(text: string, i: nat, first: char, s: string)
    requires 1 <= i < |text|
    requires s == [first] + Collapse(Codes(text[1..i]), first)
    ensures var c := Code(text[i]);
      [first] + Collapse(Codes(text[1..i + 1]), first) ==
        if c.Some? && c.value != s[|s| - 1] then s + [c.value] else s
  {
    CodesSnoc(text, i);
    var kept := Collapse(Codes(text[1..i]), first);
    assert s[|s| - 1] == if kept == [] then first else kept[|kept| - 1];
    var c := Code(text[i]);
    if c.Some? {
      CollapseSnoc(Codes(text[1..i]), c.value, first);
      assert s + [c.value] == [first] + (kept + [c.value]);
    } else {
      assert Codes(text[1..i + 1]) == Codes(text[1..i]);
    }
  }

  /** One more code is kept exactly when it differs from the last character
      written so far. */
  lemma CollapseSnoc(codes: seq<char>, c: char, first: char)
    ensures var kept := Collapse(codes, first);
      var prev := if kept == [] then first else kept[|kept| - 1];
      Collapse(codes + [c], first) == if c == prev then kept else kept + [c]
  {
    var x := codes + [c];
    assert x[..|x| - 1] == codes && x[|x| - 1] == c;
  }

  /** One more character of the text adds its code, if it has one. */
  lemma CodesSnoc(text: string, i: nat)
    requires 1 <= i < |text|
    ensures Codes(text[1..i + 1]) ==
      Codes(text[1..i]) + (if Code(text[i]).Some? then [Code(text[i]).value] else [])
  {
    assert text[1..i + 1][..i - 1] == text[1..i];
  }

  /** The codes of a prefix are a prefix of the codes. */
  lemma {:induction false} CodesPrefix(text: string, k: nat)
    requires k <= |text|
    ensures Codes(text[..k]) <= Codes(text)
    decreases |text|
  {
    if k < |text| {
      CodesPrefix(text[..|text| - 1], k);
      assert text[..|text| - 1][..k] == text[..k];
    } else {
      assert text[..k] == text;
    }
  }

  /** Collapsing a prefix of the codes gives a prefix of the collapsed codes. */
  lemma {:induction false} CollapsePrefix(codes: seq<char>, k: nat, first: char)
    requires k <= |codes|
    ensures Collapse(codes[..k], first) <= Collapse(codes, first)
    decreases |codes|
  {
    if k < |codes| {
      CollapsePrefix(codes[..|codes| - 1], k, first);
      assert codes[..|codes| - 1][..k] == codes[..k];
    } else {
      assert codes[..k] == codes;
    }
  }

  /** Every code is a digit from '1' to '6'. */
  lemma {:induction false} CodesDigits(text: string)
    ensures forall k :: 0 <= k < |Codes(text)| ==> '1' <= Codes(text)[k] <= '6'
  {
    if text != [] {
      CodesDigits(text[..|text| - 1]);
      CodeDigit(text[|text| - 1]);
    }
  }

  /** The kept codes come from `codes`, no kept code equals the one before
      it, and the first differs from `first`. */
  lemma {:induction false} CollapseDistinct(codes: seq<char>, first: char)
    ensures var kept := Collapse(codes, first);
      (forall k :: 0 <= k < |kept| ==> kept[k] in codes) &&
      (kept != [] ==> kept[0] != first) &&
      (forall k :: 0 <= k < |kept| - 1 ==> kept[k] != kept[k + 1])
  {
    if codes != [] {
      var init := codes[..|codes| - 1];
      CollapseDistinct(init, first);
      var kept := Collapse(init, first);
      forall k | 0 <= k < |kept| ensures kept[k] in codes {
        assert kept[k] in init;
      }
    }
  }

  /** The shape of every code: four characters, the upper-cased first
      character, then the kept codes (each a digit from '1' to '6', none equal
      to the character before it), then '0' padding. */
  lemma Shape(text: string)
    requires text != []
    ensures var r := Spec(text);
      |r| == 4 && r[0] == UpperChar(text[0]) &&
      (forall k :: 1 <= k < 4 ==> '0' <= r[k] <= '6') &&
      (forall k :: 1 <= k < 3 ==> r[k] == '0' ==> r[k + 1] == '0') &&
      (forall k :: 0 <= k < 3 ==> r[k + 1] != '0' ==> r[k] != r[k + 1])
  {
    var first := UpperChar(text[0]);
    var codes := Codes(text[1..]);
    var kept := Collapse(codes, first);
    CodesDigits(text[1..]);
    CollapseDistinct(codes, first);
    var r := Spec(text);
    var d := Pad(kept);
    assert r == [first] + d;
    forall k | 0 <= k < 3 ensures '0' <= d[k] <= '6' && (d[k] != '0' ==> k < |kept| && d[k] == kept[k]) {
      if k < |kept| {
        assert kept[k] in codes;
      }
    }
  }

  /** A code is a digit from '1' to '6'. */
  lemma CodeDigit(ch: char)
    ensures Code(ch).Some? ==> '1' <= Code(ch).value <= '6'
  {
    var u := UpperChar(ch);
    if 'A' <= u <= 'Z' {
      var j := u as int - 'A' as int;
      assert '0' <= Mappings[j] <= '6' by {
        assert forall m :: 0 <= m < |Mappings| ==> '0' <= Mappings[m] <= '6';
      }
    }
  }

  /** The first deviation: a character coded 0 (a vowel, H, W or Y) between
      two letters of the same code does not separate them, so the code is
      written once where the published rules write it twice for a vowel
      ("Tymczak": T520 here, T522 by the published rules). */
  lemma VowelDoesNotSeparate(f: char, x: char, v: char, y: char)
    requires Code(x).Some? && Code(y) == Code(x) && Code(v).None?
    requires Code(x).value != UpperChar(f)
    ensures Spec([f, x, v, y]) == [UpperChar(f), Code(x).value, '0', '0']
  {
    var d := Code(x).value;
    assert [f, x, v, y][1..] == [x, v, y];
    CodesStep([], x);
    CodesStep([x], v);
    CodesStep([x, v], y);
    assert [x, v, y] == [x, v] + [y] && [x, v] == [x] + [v] && [x] == [] + [x];
    assert Codes([x, v, y]) == [d, d];
    assert Collapse([d], UpperChar(f)) == [d] by { assert [d][..0] == []; }
    assert Collapse([d, d], UpperChar(f)) == [d] by { assert [d, d][..1] == [d]; }
  }

  /** The second deviation: the first letter's own code does not suppress
      the same code right after it, since only the written character is
      compared ("Pfister": P123 here, P236 by the published rules). */
  lemma FirstLetterDoesNotSuppress(f: char, g: char)
    requires 'A' <= UpperChar(f) <= 'Z'
    requires Code(f).Some? && Code(g) == Code(f)
    ensures Spec([f, g]) == [UpperChar(f), Code(f).value, '0', '0']
  {
    var d := Code(g).value;
    CodeDigit(g);
    assert [f, g][1..] == [g];
    CodesStep([], g);
    assert [g] == [] + [g];
    assert Collapse([d], UpperChar(f)) == [d] by { assert [d][..0] == []; }
  }

  /** The codes of a text with one more character at the end. */
  lemma CodesStep(t: string, ch: char)
    ensures Codes(t + [ch]) == Codes(t) + (if Code(ch).Some? then [Code(ch).value] else [])
  {
    assert (t + [ch])[..|t|] == t;
  }
}
