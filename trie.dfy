/** The prefix tree of src/search/trie.ts: one node per character, children
    keyed by character, and no end-of-word mark. What a tree holds is the set
    of its root-to-node character paths, which `add` extends by the non-empty
    prefixes of the word; `depth` and `find` measure the longest prefix of a
    word that is such a path. */
module Tries {
  import opened Wrappers

  /** The non-empty prefixes of a word. */
  function Prefixes(w: string): set<string> {
    set k | 1 <= k <= |w| :: w[..k]
  }

  /** The non-empty prefixes of all the words. */
  function AllPrefixes(words: seq<string>): set<string> {
    if words == [] then {} else AllPrefixes(words[..|words| - 1]) + Prefixes(words[|words| - 1])
  }

  /** Starting from `k`, the length of the longest prefix of `w` whose every
      non-empty prefix is a path. */
  function Longest(paths: set<string>, w: string, k: nat): (d: nat)
    requires k <= |w|
    ensures k <= d <= |w|
    ensures forall j :: k < j <= d ==> w[..j] in paths
    ensures d < |w| ==> w[..d + 1] !in paths
    decreases |w| - k
  {
    if k < |w| && w[..k + 1] in paths then Longest(paths, w, k + 1) else k
  }

  /** What `depth` and `find` count: the length of the longest prefix of `w`
      that is a path, walking one character at a time from the root. */
  function PrefixDepth(paths: set<string>, w: string): nat
  {
    Longest(paths, w, 0)
  }

  /** The depth is pinned down by the walk: every prefix up to `d` is a
      path and the next one is not. */
  lemma {:induction false} DepthUnique(paths: set<string>, w: string, k: nat, d: nat)
    requires k <= d <= |w|
    requires forall j :: k < j <= d ==> w[..j] in paths
    requires d < |w| ==> w[..d + 1] !in paths
    ensures Longest(paths, w, k) == d
    decreases |w| - k
  {
    if k < d {
      DepthUnique(paths, w, k + 1, d);
    }
  }

  /** A word whose every non-empty prefix is a path has full depth, in
      particular a word just added. */
  lemma AddedDepth(paths: set<string>, w: string)
    requires Prefixes(w) <= paths
    ensures PrefixDepth(paths, w) == |w|
  {
    forall j | 0 < j <= |w| ensures w[..j] in paths {
      assert w[..j] in Prefixes(w);
    }
    DepthUnique(paths, w, 0, |w|);
  }

  /** More paths never lower a depth. */
  lemma {:induction false} DepthMonotone(paths: set<string>, more: set<string>, w: string, k: nat)
    requires paths <= more && k <= |w|
    ensures Longest(paths, w, k) <= Longest(more, w, k)
    decreases |w| - k
  {
    if k < |w| && w[..k + 1] in paths {
      DepthMonotone(paths, more, w, k + 1);
    }
  }

  /** The depth of the empty word is 0, and so is the depth of a word whose
      first character is not a path. */
  lemma DepthZero(paths: set<string>, w: string)
    requires w == [] || [w[0]] !in paths
    ensures PrefixDepth(paths, w) == 0
  {
    if w != [] {
      assert w[..1] == [w[0]];
    }
  }

  /** The paths of a node, from the paths of its children: a child's
      character alone, or followed by one of that child's paths. */
  ghost function PathsFrom(kids: map<char, set<string>>): set<string> {
    set c, q | c in kids && q in kids[c] + {[]} :: [c] + q
  }

  /** The paths below a child for `c`: the paths through `c`, with `c`
      taken off. */
  ghost predicate Under(below: set<string>, c: char, paths: set<string>) {
    forall q :: q in below <==> q != [] && [c] + q in paths
  }

  /** The non-empty prefixes of a word: its first character, then that
      character before each non-empty prefix of the rest. */
  lemma PrefixesCons(w: string, p: string)
    requires w != []
    ensures p in Prefixes(w) <==> p != [] && p[0] == w[0] && (|p| == 1 || p[1..] in Prefixes(w[1..]))
  {
    if p in Prefixes(w) {
      var k :| 1 <= k <= |w| && p == w[..k];
      if |p| > 1 {
        assert p[1..] == w[1..][..k - 1];
      }
    }
    if p != [] && p[0] == w[0] {
      if |p| == 1 {
        assert p == w[..1];
      } else if p[1..] in Prefixes(w[1..]) {
        var k :| 1 <= k <= |w[1..]| && p[1..] == w[1..][..k];
        assert p == w[..k + 1];
      }
    }
  }

  /** Adding a word to a node: the node gains the word's prefixes exactly
      when its child for the first character gains the rest's prefixes. */
  lemma PathsFromAdd(kids: map<char, set<string>>, w: string)
    requires w != []
    ensures PathsFrom(kids[w[0] := (if w[0] in kids then kids[w[0]] else {}) + Prefixes(w[1..])])
         == PathsFrom(kids) + Prefixes(w)
  {
    var kids' := kids[w[0] := (if w[0] in kids then kids[w[0]] else {}) + Prefixes(w[1..])];
    forall p | p in PathsFrom(kids')
      ensures p in PathsFrom(kids) + Prefixes(w)
    {
      var c, q :| c in kids' && q in kids'[c] + {[]} && p == [c] + q;
      assert p[0] == c && p[1..] == q;
      PrefixesCons(w, p);
    }
    forall p | p in PathsFrom(kids) + Prefixes(w)
      ensures p in PathsFrom(kids')
    {
      if p in Prefixes(w) {
        PrefixesCons(w, p);
        assert p == [w[0]] + p[1..];
      } else {
        var c, q :| c in kids && q in kids[c] + {[]} && p == [c] + q;
        assert c in kids' && q in kids'[c] + {[]};
      }
    }
  }

  /** Below a child: the child's paths are the node's paths through that
      child's character, with the character taken off. */
  lemma PathsFromChild(kids: map<char, set<string>>, c: char)
    requires c in kids && [] !in kids[c]
    ensures Under(kids[c], c, PathsFrom(kids))
    ensures [c] in PathsFrom(kids)
  {
    forall q ensures q in kids[c] <==> q != [] && [c] + q in PathsFrom(kids) {
      if q != [] && [c] + q in PathsFrom(kids) {
        var c', q' :| c' in kids && q' in kids[c'] + {[]} && [c] + q == [c'] + q';
        assert c' == ([c] + q)[0] && q' == ([c] + q)[1..];
        assert ([c] + q)[1..] == q;
      }
    }
    assert [c] == [c] + [];
  }

  /** The depth from a node through its child `c`. */
  lemma {:induction false} DepthThrough(paths: set<string>, below: set<string>, c: char, w: string, k: nat)
    requires w != [] && w[0] == c && k < |w|
    requires Under(below, c, paths)
    ensures Longest(paths, w, k + 1) == 1 + Longest(below, w[1..], k)
    decreases |w| - k
  {
    if k + 1 < |w| {
      assert w[..k + 2] == [c] + w[1..][..k + 1];
      DepthThrough(paths, below, c, w, k + 1);
    }
  }

  /** The depth of a word whose first character is a path: one more than
      the depth of the rest below that character. */
  lemma DepthChild(paths: set<string>, below: set<string>, w: string)
    requires w != [] && [w[0]] in paths && Under(below, w[0], paths)
    ensures PrefixDepth(paths, w) == 1 + PrefixDepth(below, w[1..])
  {
    assert w[..1] == [w[0]];
    DepthThrough(paths, below, w[0], w, 0);
  }

  /** The characters of a string other than U+0000, in order: what `find`
      keeps of the characters of the nodes it passes through. */
  function Kept(s: string): (r: string)
    ensures '\0' !in s ==> r == s
  {
    if s == [] then [] else (if s[0] == '\0' then [] else [s[0]]) + Kept(s[1..])
  }

  lemma {:induction false} KeptAppend(a: string, b: string)
    ensures Kept(a + b) == Kept(a) + Kept(b)
  {
    if a != [] {
      assert (a + b)[1..] == a[1..] + b;
      KeptAppend(a[1..], b);
    } else {
      assert a + b == b;
    }
  }

  /** The shape of a subtree as a value: the node's character and, by
      character, the shapes of its children. */
  datatype Node = Node(ch: char, kids: map<char, Node>)

  /** Each child is keyed by its own character, all the way down. */
  ghost predicate Keyed(n: Node) {
    forall c :: c in n.kids ==> n.kids[c].ch == c && Keyed(n.kids[c])
  }

  /** The paths of a subtree: a child's character alone, or followed by one
      of that child's paths. */
  ghost function PathsV(n: Node): set<string>
    decreases n, 1
  {
    PathsFrom(KidPaths(n))
  }

  /** The paths of each child, by character. */
  ghost function KidPaths(n: Node): (r: map<char, set<string>>)
    ensures r.Keys == n.kids.Keys
    decreases n, 0
  {
    map c | c in n.kids :: PathsV(n.kids[c])
  }

  /** What `add` makes of a subtree: the child for the first character
      (created, holding nothing yet, when missing) takes the rest. */
  function AddV(n: Node, w: string): Node
    decreases |w|
  {
    if w == [] then n
    else
      var child := if w[0] in n.kids then n.kids[w[0]] else Node(w[0], map[]);
      Node(n.ch, n.kids[w[0] := AddV(child, w[1..])])
  }

  /** What `depth` computes on a subtree: children are followed while the
      word's next character has one. */
  function DepthV(n: Node, w: string): (d: nat)
    ensures d <= |w|
  {
    if w == [] || w[0] !in n.kids then 0 else 1 + DepthV(n.kids[w[0]], w[1..])
  }

  /** A one-character path is a child's character. */
  lemma SingleIn(kids: map<char, set<string>>, c: char)
    ensures [c] in PathsFrom(kids) <==> c in kids
  {
    if [c] in PathsFrom(kids) {
      var c', q :| c' in kids && q in kids[c'] + {[]} && [c] == [c'] + q;
      assert ([c'] + q)[0] == c';
    }
    if c in kids {
      assert [c] == [c] + [];
    }
  }

  /** A node without children has no paths. */
  lemma NoKidsNoPaths(n: Node)
    ensures n.kids == map[] ==> PathsV(n) == {}
  {
    var kids := KidPaths(n);
    if n.kids == map[] {
      assert kids.Keys == {};
    }
  }

  /** `add` extends the paths by exactly the non-empty prefixes of the word. */
  lemma {:induction false} AddPaths(n: Node, w: string)
    ensures PathsV(AddV(n, w)) == PathsV(n) + Prefixes(w)
    decreases |w|
  {
    if w == [] {
      assert Prefixes(w) == {};
    } else {
      var c := w[0];
      var child := if c in n.kids then n.kids[c] else Node(c, map[]);
      AddPaths(child, w[1..]);
      var kids := KidPaths(n);
      NoKidsNoPaths(Node(c, map[]));
      var grown := (if c in kids then kids[c] else {}) + Prefixes(w[1..]);
      assert PathsV(AddV(child, w[1..])) == grown;
      PathsFromAdd(kids, w);
      KidPathsUpdate(n, AddV(n, w), c, AddV(child, w[1..]));
      calc {
        PathsV(AddV(n, w));
        PathsFrom(kids[c := grown]);
        PathsV(n) + Prefixes(w);
      }
    }
  }

  /** Replacing one child replaces only that child's paths. */
  lemma KidPathsUpdate(n: Node, m: Node, c: char, x: Node)
    requires m.kids == n.kids[c := x]
    ensures KidPaths(m) == KidPaths(n)[c := PathsV(x)]
  {
  }

  /** Adding a word keeps every child keyed by its own character. */
  lemma {:induction false} AddKeyed(n: Node, w: string)
    requires Keyed(n)
    ensures Keyed(AddV(n, w)) && AddV(n, w).ch == n.ch
    decreases |w|
  {
    if w != [] {
      var child := if w[0] in n.kids then n.kids[w[0]] else Node(w[0], map[]);
      AddKeyed(child, w[1..]);
    }
  }

  /** The depth that `depth` computes is the length of the longest prefix
      of the word that is a path. */
  lemma {:induction false} DepthMeaning(n: Node, w: string)
    ensures DepthV(n, w) == PrefixDepth(PathsV(n), w)
    decreases |w|
  {
    var kids := KidPaths(n);
    if w == [] {
      DepthZero(PathsV(n), w);
    } else if w[0] !in n.kids {
      SingleIn(kids, w[0]);
      DepthZero(PathsV(n), w);
    } else {
      var child := n.kids[w[0]];
      DepthMeaning(child, w[1..]);
      assert [] !in PathsV(child);
      PathsFromChild(kids, w[0]);
      DepthChild(PathsV(n), PathsV(child), w);
    }
  }

  /** A node of the tree. Its ghost `model` is the shape of its subtree, so
      that what the methods do is stated on values: `add` is `AddV` and its
      effect on the paths is `AddPaths`; `depth` and `find` count
      `PrefixDepth`. */
  class TrieNode {
    const ch: char
    var children: map<char, TrieNode>
    /** The nodes of this subtree. */
    ghost var repr: set<object>
    /** The shape of this subtree. */
    ghost var model: Node

    /** Each child is keyed by its own character, owns a subtree that no
        other child shares, and has the shape the model records for it. */
    ghost predicate Valid()
      reads this, repr
      decreases repr
    {
      this in repr && model.ch == ch && model.kids.Keys == children.Keys &&
      (forall c :: c in children ==>
        children[c] in repr && children[c].repr <= repr && this !in children[c].repr &&
        children[c].ch == c && children[c].Valid() && children[c].model == model.kids[c]) &&
      (forall c, c' :: c in children && c' in children && c != c' ==> children[c].repr !! children[c'].repr)
    }

    /** The parts of `Valid`, put together after the child for `k` changed:
        that child as one part, the other children as the other. */
    lemma Reassemble(k: char)
      requires this in repr && model.ch == ch && model.kids.Keys == children.Keys && k in children
      requires children[k] in repr && children[k].repr <= repr && this !in children[k].repr &&
        children[k].ch == k && children[k].Valid() && children[k].model == model.kids[k]
      requires forall c :: c in children && c != k ==>
        children[c] in repr && children[c].repr <= repr && this !in children[c].repr &&
        children[c].ch == c && children[c].Valid() && children[c].model == model.kids[c] &&
        children[c].repr !! children[k].repr
      requires forall c, c' :: c in children && c' in children && c != c' && c != k && c' != k ==>
        children[c].repr !! children[c'].repr
      ensures Valid()
    {
    }

    /** The character paths from this node down to every node below it. */
    ghost function Paths(): set<string>
      reads this
    {
      PathsV(model)
    }

    /** `new TrieNode(char, residule)`: a node for `char` holding exactly the
        non-empty prefixes of `residule` below it. */
    constructor (ch: char, residule: string)
      ensures Valid() && this.ch == ch
      ensures model == AddV(Node(ch, map[]), residule)
      ensures fresh(repr)
      decreases |residule|, 2
    {
      this.ch := ch;
      children := map[];
      repr := {this};
      model := Node(ch, map[]);
      new;
      if |residule| > 0 {
        Add(residule);
      }
    }

    /** `add(word)`: the subtree becomes `AddV(old shape, word)`, so its
        paths gain exactly the non-empty prefixes of the word; adding a word
        twice, or the empty word, changes nothing. */
    method Add(word: string)
      requires Valid()
      modifies repr
      ensures Valid()
      ensures model == AddV(old(model), word)
      ensures fresh(repr - old(repr))
      decreases |word|, 1
    {
      if |word| == 0 {
        return;
      }
      var c := word[0];
      if c in children {
        AddBelow(c, word[1..]);
      } else {
        AddNew(c, word[1..]);
      }
    }

    /** The first branch of `add`: the existing child for `c` takes the
        rest of the word. */
    method AddBelow(c: char, rest: string)
      requires Valid() && c in children
      modifies repr
      ensures Valid()
      ensures model == Node(ch, old(model).kids[c := AddV(old(model).kids[c], rest)])
      ensures fresh(repr - old(repr))
      decreases |rest| + 1, 0
    {
      var n := children[c];
      n.Add(rest);
      repr, model := repr + n.repr, Node(ch, model.kids[c := n.model]);
      forall c' | c' in children && c' != c
        ensures children[c'] in repr && children[c'].repr <= repr && this !in children[c'].repr
        ensures children[c'].ch == c' && children[c'].Valid() && children[c'].model == model.kids[c']
        ensures children[c'].repr !! children[c].repr
      {
        StillValid(children[c']);
      }
      Reassemble(c);
    }

    /** The second branch of `add`: a new child for `c` takes the rest of
        the word. */
    method AddNew(c: char, rest: string)
      requires Valid() && c !in children
      modifies this
      ensures Valid()
      ensures model == Node(ch, old(model).kids[c := AddV(Node(c, map[]), rest)])
      ensures fresh(repr - old(repr))
      decreases |rest| + 1, 0
    {
      var n := new TrieNode(c, rest);
      Attach(n);
    }

    /** Hangs the subtree `n`, which shares no node with this one, under
        this node as the child for its character. */
    method Attach(n: TrieNode)
      requires Valid() && n.Valid() && n.ch !in children && n.repr !! repr
      modifies this
      ensures Valid()
      ensures children == old(children)[n.ch := n] && repr == old(repr) + n.repr
      ensures model == Node(ch, old(model).kids[n.ch := n.model])
    {
      var c := n.ch;
      children, repr, model := children[c := n], repr + n.repr, Node(ch, model.kids[c := n.model]);
      forall c' | c' in children && c' != c
        ensures children[c'] in repr && children[c'].repr <= repr && this !in children[c'].repr
        ensures children[c'].ch == c' && children[c'].Valid() && children[c'].model == model.kids[c']
        ensures children[c'].repr !! children[c].repr
      {
        StillValid(children[c']);
      }
      Reassemble(c);
    }

    /** `child(word)`: the child for the first character of the word, when
        there is one. */
    function Child(word: string): (r: Option<TrieNode>)
      requires Valid()
      reads this, repr
      ensures r.Some? <==> word != [] && word[0] in model.kids
      ensures r.Some? ==> r.value.Valid() && r.value.repr <= repr && this !in r.value.repr
      ensures r.Some? ==> r.value.ch == word[0] && r.value.model == model.kids[word[0]]
    {
      if word == [] || word[0] !in children then None else Some(children[word[0]])
    }

    /** `depth(word)`: the length of the longest prefix of the word that is a
        path from this node, found by walking down one child at a time. */
    method Depth(word: string) returns (d: nat)
      requires Valid()
      ensures d == DepthV(model, word)
    {
      if |word| == 0 {
        return 0;
      }
      var child := Child(word);
      if child.None? {
        return 0;
      }
      d := 1;
      var node := child.value;
      var rest := word[1..];
      while |rest| > 0
        invariant node.Valid()
        invariant DepthV(model, word) == d + DepthV(node.model, rest)
        decreases |rest|
      {
        var next := node.Child(rest);
        if next.None? {
          break;
        }
        d := d + 1;
        node := next.value;
        rest := rest[1..];
      }
    }

    /** `find(word)`: the depth of the word from this node, and the
        characters of the nodes passed through. Every node but the last adds
        its character unless that character is U+0000, as the root's is; the
        last always adds its own. */
    function Find(word: string): (r: (nat, string))
      requires Valid()
      reads this, repr
      ensures r.0 == DepthV(model, word)
      ensures r.0 == 0 ==> r.1 == [ch]
      ensures r.0 > 0 ==> r.1 == Kept([ch] + word[..r.0 - 1]) + [word[r.0 - 1]]
      decreases repr
    {
      var charstr := [ch];
      var child := Child(word);
      if child.None? then
        (0, charstr)
      else
        var n := child.value;
        var (d, str) := n.Find(word[1..]);
        FindStep(ch, word, d, str);
        if ch as int > 0 then (1 + d, charstr + str) else (1 + d, str)
    }
  }

  /** One step of `find`: what a node adds in front of what its child found. */
  lemma FindStep(ch: char, word: string, d: nat, str: string)
    requires d < |word|
    requires d == 0 ==> str == [word[0]]
    requires d > 0 ==> str == Kept([word[0]] + word[1..][..d - 1]) + [word[1..][d - 1]]
    ensures (if ch as int > 0 then [ch] + str else str) == Kept([ch] + word[..d]) + [word[d]]
  {
    KeptOne(ch);
    KeptAppend([ch], word[..d]);
    if d == 0 {
      assert word[..d] == [];
    } else {
      assert [word[0]] + word[1..][..d - 1] == word[..d];
      assert word[1..][d - 1] == word[d];
    }
    assert str == Kept(word[..d]) + [word[d]];
  }

  /** A single character is kept unless it is U+0000. */
  lemma KeptOne(ch: char)
    ensures Kept([ch]) == if ch as int > 0 then [ch] else []
  {
    assert [ch][1..] == [];
  }

  /** A prefix of a string without U+0000 has none either. */
  lemma NoZeroPrefix(word: string, n: nat)
    requires '\0' !in word && n <= |word|
    ensures '\0' !in word[..n]
  {
    forall i | 0 <= i < n ensures word[..n][i] != '\0' {
      assert word[i] in word;
    }
  }

  /** A node none of whose subtree changed is as valid as it was. */
  twostate lemma StillValid(t: TrieNode)
    requires old(t.Valid()) && unchanged(old(t.repr))
    ensures t.Valid() && t.repr == old(t.repr) && t.model == old(t.model)
  {
  }

  /** From the root, whose character is U+0000, `find` returns the found
      prefix itself, provided the word holds no U+0000. */
  lemma RootFind(root: TrieNode, word: string)
    requires root.Valid() && root.ch == '\0' && '\0' !in word
    ensures root.Find(word).0 > 0 ==> root.Find(word).1 == word[..root.Find(word).0]
  {
    var r := root.Find(word);
    if r.0 > 0 {
      RootKept(word, r.0);
    }
  }

  /** What the root's `find` assembles for a found prefix of length `d`. */
  lemma RootKept(word: string, d: nat)
    requires '\0' !in word && 0 < d <= |word|
    ensures Kept(['\0'] + word[..d - 1]) + [word[d - 1]] == word[..d]
  {
    NoZeroPrefix(word, d - 1);
    KeptAppend(['\0'], word[..d - 1]);
    KeptOne('\0');
    assert word[..d] == word[..d - 1] + [word[d - 1]];
  }

  /** The shape of `new Trie(words)`: a root of character U+0000 to which
      the words are added in turn. */
  function BuildV(words: seq<string>): Node {
    if words == [] then Node('\0', map[]) else AddV(BuildV(words[..|words| - 1]), words[|words| - 1])
  }

  /** A trie holds exactly the non-empty prefixes of its words. */
  lemma {:induction false} BuildPaths(words: seq<string>)
    ensures PathsV(BuildV(words)) == AllPrefixes(words)
  {
    if words == [] {
      NoKidsNoPaths(Node('\0', map[]));
    } else {
      BuildPaths(words[..|words| - 1]);
      AddPaths(BuildV(words[..|words| - 1]), words[|words| - 1]);
    }
  }

  /** In a trie, the depth of a word is the length of its longest prefix
      that is also a prefix of one of the words. */
  lemma TrieDepth(words: seq<string>, w: string)
    ensures DepthV(BuildV(words), w) == PrefixDepth(AllPrefixes(words), w)
  {
    DepthMeaning(BuildV(words), w);
    BuildPaths(words);
  }

  /** `new Trie(words)`: a root node of character U+0000 to which every word
      is added in turn; it holds exactly the non-empty prefixes of the words. */
  method NewTrie(words: seq<string>) returns (t: TrieNode)
    ensures t.Valid() && t.ch == '\0' && fresh(t.repr)
    ensures t.model == BuildV(words)
    ensures t.Paths() == AllPrefixes(words)
  {
    t := new TrieNode('\0', "");
    for i := 0 to |words|
      invariant t.Valid() && t.ch == '\0' && fresh(t.repr)
      invariant t.model == BuildV(words[..i])
    {
      t.Add(words[i]);
      assert words[..i + 1][..i] == words[..i];
    }
    assert words[..|words|] == words;
    BuildPaths(words);
  }

  /** The paths of a trie depend only on the set of words: neither the
      order of the words nor repeating one makes a difference. */
  lemma {:induction false} AllPrefixesOfSet(words: seq<string>)
    ensures forall p :: p in AllPrefixes(words) <==> exists w :: w in words && p in Prefixes(w)
  {
    if words != [] {
      var init := words[..|words| - 1];
      AllPrefixesOfSet(init);
      assert words == init + [words[|words| - 1]];
    }
  }

  /** Every non-empty prefix of a path is a path. */
  lemma PrefixClosed(words: seq<string>, p: string, k: nat)
    requires p in AllPrefixes(words) && 1 <= k <= |p|
    ensures p[..k] in AllPrefixes(words)
  {
    AllPrefixesOfSet(words);
    var w :| w in words && p in Prefixes(w);
    var m :| 1 <= m <= |w| && p == w[..m];
    assert p[..k] == w[..k];
  }
}
