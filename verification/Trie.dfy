/**
 The counting trie. Nodes are numbered in the order they are allocated; a pointer is a node's number.
 */
module Trie {

  const TREE_WIDTH := 256
  const WORDLENMAX := 128
  const NULL := -1

  /** A character code of 7-bit text; 0 ends a string. */
  type Code = c: int | 0 < c < 128 witness 1

  type Word = seq<Code>

  datatype Node = Node(count: nat, pass: nat, next: seq<int>)

  // ---------------------------------------------------------------- counting words

  /** How often p was inserted. */
  function Ends(words: seq<Word>, p: Word): (n: nat) {
    if words == [] then 0 else Ends(words[..|words| - 1], p) + if words[|words| - 1] == p then 1 else 0
  }

  /** How many inserted words go on after p. */
  function Through(words: seq<Word>, p: Word): (n: nat) {
    if words == [] then 0
    else Through(words[..|words| - 1], p) + if p < words[|words| - 1] then 1 else 0
  }

  /** How many inserted words begin with p. */
  function Starting(words: seq<Word>, p: Word): (n: nat) {
    if words == [] then 0
    else Starting(words[..|words| - 1], p) + if p <= words[|words| - 1] then 1 else 0
  }

  lemma {:induction false} EndsPlusThrough(words: seq<Word>, p: Word)
    ensures Ends(words, p) + Through(words, p) == Starting(words, p)
  {
    if words != [] {
      EndsPlusThrough(words[..|words| - 1], p);
      assert p <= words[|words| - 1] <==> p == words[|words| - 1] || p < words[|words| - 1];
    }
  }

  lemma {:induction false} EndsPositive(words: seq<Word>, p: Word)
    ensures Ends(words, p) > 0 <==> p in words
  {
    if words != [] {
      EndsPositive(words[..|words| - 1], p);
      assert words == words[..|words| - 1] + [words[|words| - 1]];
    }
  }

  lemma {:induction false} NoneStarting(words: seq<Word>, p: Word)
    ensures Starting(words, p) > 0 ==> exists w :: w in words && p <= w
  {
    if words != [] {
      var last := words[|words| - 1];
      NoneStarting(words[..|words| - 1], p);
      assert last in words;
      if !(p <= last) && Starting(words, p) > 0 {
        var w :| w in words[..|words| - 1] && p <= w;
        assert w in words;
      }
    }
  }

  lemma CountsAppend(words: seq<Word>, w: Word, p: Word)
    ensures Ends(words + [w], p) == Ends(words, p) + if w == p then 1 else 0
    ensures Through(words + [w], p) == Through(words, p) + if p < w then 1 else 0
  {
  }

  // ---------------------------------------------------------------- the nodes

  /** paths[v] is the word that leads to node v, up[v] the node above v. */
  ghost predicate Shaped(nodes: seq<Node>, paths: seq<Word>, up: seq<nat>) {
    && |nodes| == |paths| == |up| > 0 && paths[0] == []
    && (forall v :: 0 <= v < |nodes| ==> |nodes[v].next| == TREE_WIDTH)
    && (forall v, c :: 0 <= v < |nodes| && 0 <= c < TREE_WIDTH ==> PointerOk(nodes, paths, up, v, c))
    && (forall v :: 0 < v < |nodes| ==> up[v] < v && paths[v] != [] && paths[v][..|paths[v]| - 1] == paths[up[v]]
                                        && nodes[up[v]].next[paths[v][|paths[v]| - 1]] == v)
  }

  ghost predicate PointerOk(nodes: seq<Node>, paths: seq<Word>, up: seq<nat>, v: nat, c: nat)
    requires |nodes| == |paths| == |up| && v < |nodes| && |nodes[v].next| == TREE_WIDTH && c < TREE_WIDTH
  {
    var u := nodes[v].next[c];
    u == NULL || (v < u < |nodes| && 0 < c < 128 && up[u] == v && paths[u] == paths[v] + [c])
  }

  /** No word leads to two nodes. */
  lemma {:induction false} PathsDistinct(nodes: seq<Node>, paths: seq<Word>, up: seq<nat>, u: nat, v: nat)
    requires Shaped(nodes, paths, up) && u < |nodes| && v < |nodes| && paths[u] == paths[v]
    ensures u == v
    decreases u
  {
    if u > 0 && v > 0 {
      PathsDistinct(nodes, paths, up, up[u], up[v]);
    }
  }

  /** The nodes above a node lead along the prefixes of its word. */
  lemma {:induction false} PrefixNode(nodes: seq<Node>, paths: seq<Word>, up: seq<nat>, v: nat, k: nat) returns (u: nat)
    requires Shaped(nodes, paths, up) && v < |nodes| && k <= |paths[v]|
    ensures u < |nodes| && paths[u] == paths[v][..k]
    decreases v
  {
    if k == |paths[v]| {
      u := v;
    } else {
      u := PrefixNode(nodes, paths, up, up[v], k);
      assert paths[v][..k] == paths[up[v]][..k];
    }
  }

  /** While a word is inserted, i of its characters done: each node's two numbers say how many words end
      there and how many go on, and the nodes passed so far already count the new word. */
  ghost predicate Counted(nodes: seq<Node>, paths: seq<Word>, words: seq<Word>, word: Word, i: nat) {
    && |nodes| == |paths|
    && forall v :: 0 <= v < |nodes| ==>
         && nodes[v].count == Ends(words, paths[v])
         && nodes[v].pass == Through(words, paths[v]) + if |paths[v]| < i && paths[v] <= word then 1 else 0
  }

  /** A node for every word. */
  ghost predicate Covered(paths: seq<Word>, words: seq<Word>) {
    forall w :: w in words ==> w in paths
  }

  /** Every node lies on the way to a word. */
  ghost predicate Reached(paths: seq<Word>, words: seq<Word>) {
    forall v :: 0 <= v < |paths| && paths[v] != [] ==> OnTheWay(paths[v], words)
  }

  ghost predicate OnTheWay(p: Word, words: seq<Word>) {
    exists w :: w in words && p <= w
  }

  lemma ReachedMore(paths: seq<Word>, words: seq<Word>, word: Word)
    requires Reached(paths, words)
    ensures Reached(paths, words + [word])
  {
    forall v | 0 <= v < |paths| && paths[v] != [] ensures OnTheWay(paths[v], words + [word]) {
      var w :| w in words && paths[v] <= w;
      assert w in words + [word];
    }
  }

  lemma ReachedNew(paths: seq<Word>, words: seq<Word>, word: Word, i: nat)
    requires Reached(paths, words + [word]) && i <= |word|
    ensures Reached(paths + [word[..i]], words + [word])
  {
    assert (words + [word])[|words|] == word;
    assert word in words + [word] && word[..i] <= word;
    assert OnTheWay(word[..i], words + [word]);
  }

  lemma PassCounted(nodes: seq<Node>, paths: seq<Word>, up: seq<nat>, words: seq<Word>, word: Word, i: nat, curr: nat)
    requires Shaped(nodes, paths, up) && Counted(nodes, paths, words, word, i)
    requires curr < |nodes| && i < |word| && paths[curr] == word[..i]
    ensures var nodes' := nodes[curr := nodes[curr].(pass := nodes[curr].pass + 1)];
            Shaped(nodes', paths, up) && Counted(nodes', paths, words, word, i + 1)
  {
    var nodes' := nodes[curr := nodes[curr].(pass := nodes[curr].pass + 1)];
    SamePointers(nodes, nodes', paths, up);
    hide Shaped;
    hide Ends;
    hide Through;
    forall v | 0 <= v < |nodes|
      ensures nodes'[v].count == Ends(words, paths[v])
      ensures nodes'[v].pass == Through(words, paths[v]) + if |paths[v]| < i + 1 && paths[v] <= word then 1 else 0
    {
      if |paths[v]| == i && paths[v] <= word {
        assert paths[v] == word[..i];
        PathsDistinct(nodes, paths, up, v, curr);
      }
    }
  }

  lemma SamePointers(nodes: seq<Node>, nodes': seq<Node>, paths: seq<Word>, up: seq<nat>)
    requires Shaped(nodes, paths, up) && |nodes'| == |nodes|
    requires forall v :: 0 <= v < |nodes| ==> nodes'[v].next == nodes[v].next
    ensures Shaped(nodes', paths, up)
  {
    forall v, c | 0 <= v < |nodes'| && 0 <= c < TREE_WIDTH ensures PointerOk(nodes', paths, up, v, c) {
      assert PointerOk(nodes, paths, up, v, c);
    }
  }

  function NewNode(): (n: Node)
  {
    Node(0, 0, seq(TREE_WIDTH, _ => NULL))
  }

  function Linked(nodes: seq<Node>, curr: nat, c: nat): (r: seq<Node>)
    requires curr < |nodes| && c < |nodes[curr].next|
  {
    nodes[curr := nodes[curr].(next := nodes[curr].next[c := |nodes|])] + [NewNode()]
  }

  lemma LinkedShaped(nodes: seq<Node>, paths: seq<Word>, up: seq<nat>, curr: nat, c: Code)
    requires Shaped(nodes, paths, up) && curr < |nodes| && nodes[curr].next[c] == NULL
    ensures Shaped(Linked(nodes, curr, c), paths + [paths[curr] + [c]], up + [curr])
  {
    var nodes', paths', up' := Linked(nodes, curr, c), paths + [paths[curr] + [c]], up + [curr];
    LinkedNodes(nodes, curr, c);
    hide Linked;
    assert (paths[curr] + [c])[..|paths[curr]|] == paths[curr];
    LinkedPointers(nodes, paths, up, curr, c);
    forall v | 0 < v < |nodes'|
      ensures up'[v] < v && paths'[v] != [] && paths'[v][..|paths'[v]| - 1] == paths'[up'[v]]
      ensures nodes'[up'[v]].next[paths'[v][|paths'[v]| - 1]] == v
    {
      if v < |nodes| {
        assert paths'[v] == paths[v] && up'[v] == up[v] && paths'[up[v]] == paths[up[v]];
      }
    }
  }

  lemma LinkedNodes(nodes: seq<Node>, curr: nat, c: Code)
    requires curr < |nodes| && |nodes[curr].next| == TREE_WIDTH
    ensures var r := Linked(nodes, curr, c);
            && |r| == |nodes| + 1 && r[|nodes|] == NewNode() && r[curr].next == nodes[curr].next[c := |nodes|]
            && forall v :: 0 <= v < |nodes| && v != curr ==> r[v] == nodes[v]
  {
  }

  lemma LinkedPointers(nodes: seq<Node>, paths: seq<Word>, up: seq<nat>, curr: nat, c: Code)
    requires Shaped(nodes, paths, up) && curr < |nodes| && nodes[curr].next[c] == NULL
    ensures var nodes', paths', up' := Linked(nodes, curr, c), paths + [paths[curr] + [c]], up + [curr];
            |nodes'| == |nodes| + 1 &&
            forall v, d :: 0 <= v < |nodes'| && 0 <= d < TREE_WIDTH ==>
              |nodes'[v].next| == TREE_WIDTH && PointerOk(nodes', paths', up', v, d)
  {
    var nodes', paths', up' := Linked(nodes, curr, c), paths + [paths[curr] + [c]], up + [curr];
    LinkedNodes(nodes, curr, c);
    hide Linked;
    forall v, d | 0 <= v < |nodes'| && 0 <= d < TREE_WIDTH
      ensures |nodes'[v].next| == TREE_WIDTH && PointerOk(nodes', paths', up', v, d)
    {
      if v < |nodes| {
        assert PointerOk(nodes, paths, up, v, d);
      }
    }
  }

  /** A missing pointer means that no word goes this way. */
  lemma NoWordYet(nodes: seq<Node>, paths: seq<Word>, up: seq<nat>, words: seq<Word>, curr: nat, c: Code)
    requires Shaped(nodes, paths, up) && Covered(paths, words) && curr < |nodes| && nodes[curr].next[c] == NULL
    ensures Starting(words, paths[curr] + [c]) == 0
  {
    var p := paths[curr] + [c];
    NoneStarting(words, p);
    if w :| w in words && p <= w {
      var v :| 0 <= v < |paths| && paths[v] == w;
      var u := PrefixNode(nodes, paths, up, v, |p|);
      PathsDistinct(nodes, paths, up, up[u], curr);
      assert false;
    }
  }

  lemma LinkedCounted(nodes: seq<Node>, paths: seq<Word>, up: seq<nat>, words: seq<Word>, word: Word, i: nat,
                curr: nat, c: Code)
    requires Shaped(nodes, paths, up) && Covered(paths, words) && Counted(nodes, paths, words, word, i)
    requires curr < |nodes| && nodes[curr].next[c] == NULL && i <= |paths[curr]| + 1
    ensures var paths' := paths + [paths[curr] + [c]];
            Covered(paths', words) && Counted(Linked(nodes, curr, c), paths', words, word, i)
  {
    NoWordYet(nodes, paths, up, words, curr, c);
    EndsPlusThrough(words, paths[curr] + [c]);
  }

  lemma WordCounted(nodes: seq<Node>, paths: seq<Word>, up: seq<nat>, words: seq<Word>, word: Word, curr: nat)
    requires Shaped(nodes, paths, up) && Covered(paths, words) && Counted(nodes, paths, words, word, |word|)
    requires curr < |nodes| && paths[curr] == word
    ensures var nodes' := nodes[curr := nodes[curr].(count := nodes[curr].count + 1)];
            && Shaped(nodes', paths, up) && Covered(paths, words + [word])
            && Counted(nodes', paths, words + [word], [], 0)
  {
    var nodes' := nodes[curr := nodes[curr].(count := nodes[curr].count + 1)];
    SamePointers(nodes, nodes', paths, up);
    forall v | 0 <= v < |nodes|
      ensures nodes'[v].count == Ends(words + [word], paths[v]) && nodes'[v].pass == Through(words + [word], paths[v])
    {
      CountsAppend(words, word, paths[v]);
      assert |paths[v]| < |word| && paths[v] <= word <==> paths[v] < word;
      if paths[v] == word {
        PathsDistinct(nodes, paths, up, v, curr);
      }
    }
  }

  class Trie {
    var nodes: seq<Node>
    ghost var paths: seq<Word>
    ghost var up: seq<nat>
    ghost var words: seq<Word>

    ghost predicate Valid()
      reads this
    {
      && Shaped(nodes, paths, up) && Covered(paths, words) && Reached(paths, words)
      && Counted(nodes, paths, words, [], 0)
    }

    constructor ()
      ensures Valid() && words == []
    {
      nodes, paths, up, words := [NewNode()], [[]], [0], [];
    }

    /** The insertion of word has come to node curr, i characters on. */
    ghost predicate Inserting(word: Word, i: nat, curr: nat)
      reads this
    {
      && i <= |word| && curr < |nodes| == |paths| && paths[curr] == word[..i]
      && Shaped(nodes, paths, up) && Covered(paths, words) && Reached(paths, words + [word])
      && Counted(nodes, paths, words, word, i)
    }

    /** One round of the loop of insert. */
    method Advance(word: Word, i: nat, curr: nat) returns (next: nat)
      requires Inserting(word, i, curr) && i < |word|
      modifies this`nodes, this`paths, this`up
      ensures Inserting(word, i + 1, next)
    {
      hide Shaped;
      hide Covered;
      hide Counted;
      hide Linked;
      hide Reached;
      PassCounted(nodes, paths, up, words, word, i, curr);
      nodes := nodes[curr := nodes[curr].(pass := nodes[curr].pass + 1)];
      Follow(nodes, paths, up, curr, word[i]);
      assert word[..i + 1] == word[..i] + [word[i]];
      if nodes[curr].next[word[i]] == NULL {
        LinkedShaped(nodes, paths, up, curr, word[i]);
        LinkedCounted(nodes, paths, up, words, word, i + 1, curr, word[i]);
        LinkedFollow(nodes, curr, word[i]);
        ReachedNew(paths, words, word, i + 1);
        nodes := Linked(nodes, curr, word[i]);
        paths, up := paths + [paths[curr] + [word[i]]], up + [curr];
      }
      next := nodes[curr].next[word[i]];
    }

    lemma Starts(word: Word)
      requires Valid()
      ensures Inserting(word, 0, 0)
    {
      StartCounted(nodes, paths, up, words, word);
      ReachedMore(paths, words, word);
    }

    /** The increment of count at the last node. */
    method Finish(word: Word, curr: nat)
      requires Inserting(word, |word|, curr)
      modifies this`nodes, this`words
      ensures Valid() && words == old(words) + [word]
    {
      hide Shaped;
      hide Covered;
      hide Counted;
      hide Reached;
      WordCounted(nodes, paths, up, words, word, curr);
      nodes := nodes[curr := nodes[curr].(count := nodes[curr].count + 1)];
      words := words + [word];
    }

    method Insert(word: Word)
      requires Valid()
      modifies this
      ensures Valid()
      ensures words == old(words) + if word == [] then [] else [word]
    {
      if word == [] {
        return;
      }
      hide Inserting;
      hide Valid;
      var curr: nat, i: nat := 0, 0;
      Starts(word);
      while i < |word|
        invariant i <= |word| && Inserting(word, i, curr) && words == old(words)
      {
        curr := Advance(word, i, curr);
        i := i + 1;
      }
      Finish(word, curr);
    }
  }

  lemma StartCounted(nodes: seq<Node>, paths: seq<Word>, up: seq<nat>, words: seq<Word>, word: Word)
    requires Shaped(nodes, paths, up) && Counted(nodes, paths, words, [], 0)
    ensures |nodes| == |paths| > 0 && paths[0] == [] && Counted(nodes, paths, words, word, 0)
  {
  }

  lemma Follow(nodes: seq<Node>, paths: seq<Word>, up: seq<nat>, curr: nat, c: Code)
    requires Shaped(nodes, paths, up) && curr < |nodes|
    ensures |nodes| == |paths| == |up| && |nodes[curr].next| == TREE_WIDTH
    ensures var u := nodes[curr].next[c]; u == NULL || (0 <= u < |nodes| && paths[u] == paths[curr] + [c])
  {
    assert PointerOk(nodes, paths, up, curr, c);
  }

  lemma LinkedFollow(nodes: seq<Node>, curr: nat, c: Code)
    requires curr < |nodes| && |nodes[curr].next| == TREE_WIDTH
    ensures var r := Linked(nodes, curr, c);
            |r| == |nodes| + 1 && |r[curr].next| == TREE_WIDTH && r[curr].next[c] == |nodes|
  {
  }

  // ---------------------------------------------------------------- do_travel

  type Line = (seq<int>, nat)

  /** What do_travel prints from node v on. */
  ghost function Report(nodes: seq<Node>, paths: seq<Word>, up: seq<nat>, v: nat): (r: seq<Line>)
    requires Shaped(nodes, paths, up) && v < |nodes|
    decreases |nodes| - v, TREE_WIDTH + 1
  {
    Own(nodes, paths, v) + ReportFrom(nodes, paths, up, v, 0)
  }

  ghost function Own(nodes: seq<Node>, paths: seq<Word>, v: nat): (r: seq<Line>)
    requires |nodes| == |paths| && v < |nodes|
  {
    if nodes[v].count > 0 then [(paths[v], nodes[v].count + nodes[v].pass)] else []
  }

  /** The part of it that the children from c on print. */
  ghost function ReportFrom(nodes: seq<Node>, paths: seq<Word>, up: seq<nat>, v: nat, c: nat): (r: seq<Line>)
    requires Shaped(nodes, paths, up) && v < |nodes| && c <= TREE_WIDTH
    decreases |nodes| - v, TREE_WIDTH - c
  {
    if c == TREE_WIDTH then []
    else
      assert PointerOk(nodes, paths, up, v, c);
      (if nodes[v].next[c] == NULL then [] else Report(nodes, paths, up, nodes[v].next[c]))
      + ReportFrom(nodes, paths, up, v, c + 1)
  }

  /** The string a buffer holds: the characters before the first zero. */
  function CString(s: seq<int>): (r: seq<int>) {
    if s == [] || s[0] == 0 then [] else [s[0]] + CString(s[1..])
  }

  lemma {:induction false} CStringEnds(s: seq<int>, k: nat)
    requires k < |s| && s[k] == 0 && forall i :: 0 <= i < k ==> s[i] != 0
    ensures CString(s) == s[..k]
  {
    if k > 0 {
      CStringEnds(s[1..], k - 1);
      assert s[..k] == [s[0]] + s[1..][..k - 1];
    }
  }

  /** do_travel with its static variables, and the lines printed so far. */
  class Traveller {
    const worddump: array<int>
    var pos: nat
    var printed: seq<Line>

    constructor ()
      ensures worddump.Length == WORDLENMAX + 1 && fresh(worddump) && pos == 0 && printed == []
    {
      worddump := new int[WORDLENMAX + 1];
      pos, printed := 0, [];
    }

    /** The line of the node itself. */
    method PrintOwn(nodes: seq<Node>, v: nat, ghost paths: seq<Word>)
      requires |nodes| == |paths| && v < |nodes| && pos < worddump.Length
      requires pos == |paths[v]| && worddump[..pos] == paths[v]
      modifies `printed, worddump
      ensures worddump[..pos] == paths[v] && printed == old(printed) + Own(nodes, paths, v)
    {
      if nodes[v].count > 0 {
        worddump[pos] := 0;
        CStringEnds(worddump[..], pos);
        assert worddump[..][..pos] == worddump[..pos];
        printed := printed + [(CString(worddump[..]), nodes[v].count + nodes[v].pass)];
      }
    }

    /** One shared buffer serves all depths: it holds the word of the node that is being visited. */
    method DoTravel(nodes: seq<Node>, rootp: int, ghost paths: seq<Word>, ghost up: seq<nat>)
      requires Shaped(nodes, paths, up) && Short(paths) && worddump.Length == WORDLENMAX + 1
      requires rootp == NULL || (0 <= rootp < |nodes| && pos == |paths[rootp]| && worddump[..pos] == paths[rootp])
      modifies `pos, `printed, worddump
      ensures pos == old(pos) && (pos <= worddump.Length ==> worddump[..pos] == old(worddump[..pos]))
      ensures printed == old(printed) + if rootp == NULL then [] else Report(nodes, paths, up, rootp)
      decreases if rootp == NULL then 0 else |nodes| - rootp, 1
    {
      if rootp == NULL {
        return;
      }
      hide Report;
      hide ReportFrom;
      hide Own;
      ghost var word, line0 := paths[rootp], printed;
      ShapedBasics(nodes, paths, up, rootp);
      hide Shaped;
      PrintOwn(nodes, rootp, paths);
      ReportStarts(nodes, paths, up, rootp, line0);
      for i := 0 to TREE_WIDTH
        invariant pos == |word| && worddump[..pos] == word
        invariant printed + ReportFrom(nodes, paths, up, rootp, i) == line0 + Report(nodes, paths, up, rootp)
      {
        VisitChild(nodes, rootp, i, paths, up);
      }
      ReportEnds(nodes, paths, up, rootp, printed);
    }

    /** One round of its loop. */
    method VisitChild(nodes: seq<Node>, v: nat, i: nat, ghost paths: seq<Word>, ghost up: seq<nat>)
      requires Shaped(nodes, paths, up) && Short(paths) && worddump.Length == WORDLENMAX + 1
      requires v < |nodes| && i < TREE_WIDTH && pos == |paths[v]| && worddump[..pos] == paths[v]
      modifies `pos, `printed, worddump
      ensures pos == |paths[v]| && worddump[..pos] == paths[v]
      ensures printed + ReportFrom(nodes, paths, up, v, i + 1) == old(printed) + ReportFrom(nodes, paths, up, v, i)
      decreases |nodes| - v, 0
    {
      hide Report;
      hide ReportFrom;
      ShapedBasics(nodes, paths, up, v);
      ReportSteps(nodes, paths, up, v, i, printed);
      hide Shaped;
      worddump[pos] := i;
      pos := pos + 1;
      assert worddump[..pos] == paths[v] + [i];
      DoTravel(nodes, nodes[v].next[i], paths, up);
      assert worddump[..pos - 1] == worddump[..pos][..pos - 1];
      pos := pos - 1;
    }
  }

  /** No word is longer than the buffer allows. */
  ghost predicate Short(paths: seq<Word>) {
    forall v :: 0 <= v < |paths| ==> |paths[v]| <= WORDLENMAX
  }

  lemma ShapedBasics(nodes: seq<Node>, paths: seq<Word>, up: seq<nat>, v: nat)
    requires Shaped(nodes, paths, up) && v < |nodes|
    ensures |nodes| == |paths| && |nodes[v].next| == TREE_WIDTH
  {
  }

  lemma ReportStarts(nodes: seq<Node>, paths: seq<Word>, up: seq<nat>, v: nat, line: seq<Line>)
    requires Shaped(nodes, paths, up) && v < |nodes|
    ensures line + Own(nodes, paths, v) + ReportFrom(nodes, paths, up, v, 0) == line + Report(nodes, paths, up, v)
  {
    hide Shaped;
    hide Own;
    hide ReportFrom;
  }

  lemma ReportEnds(nodes: seq<Node>, paths: seq<Word>, up: seq<nat>, v: nat, line: seq<Line>)
    requires Shaped(nodes, paths, up) && v < |nodes|
    ensures line + ReportFrom(nodes, paths, up, v, TREE_WIDTH) == line
  {
    hide Shaped;
  }

  lemma ReportSteps(nodes: seq<Node>, paths: seq<Word>, up: seq<nat>, v: nat, c: nat, line: seq<Line>)
    requires Shaped(nodes, paths, up) && v < |nodes| && c < TREE_WIDTH
    ensures var u := nodes[v].next[c];
            && (u == NULL || (v < u < |nodes| && paths[u] == paths[v] + [c]))
            && (line + if u == NULL then [] else Report(nodes, paths, up, u)) + ReportFrom(nodes, paths, up, v, c + 1)
               == line + ReportFrom(nodes, paths, up, v, c)
  {
    ChildBelow(nodes, paths, up, v, c);
    ReportFromUnfolds(nodes, paths, up, v, c);
    hide *;
    var u := nodes[v].next[c];
    var block: seq<Line> := if u == NULL then [] else Report(nodes, paths, up, u);
    Associates(line, block, ReportFrom(nodes, paths, up, v, c + 1));
  }

  lemma Associates<T>(a: seq<T>, b: seq<T>, c: seq<T>)
    ensures (a + b) + c == a + (b + c)
  {
  }

  lemma ChildBelow(nodes: seq<Node>, paths: seq<Word>, up: seq<nat>, v: nat, c: nat)
    requires Shaped(nodes, paths, up) && v < |nodes| && c < TREE_WIDTH
    ensures var u := nodes[v].next[c]; u == NULL || (v < u < |nodes| && paths[u] == paths[v] + [c])
  {
    assert PointerOk(nodes, paths, up, v, c);
  }

  lemma ReportFromUnfolds(nodes: seq<Node>, paths: seq<Word>, up: seq<nat>, v: nat, c: nat)
    requires Shaped(nodes, paths, up) && v < |nodes| && c < TREE_WIDTH
    ensures var u := nodes[v].next[c];
            && (u == NULL || v < u < |nodes|)
            && ReportFrom(nodes, paths, up, v, c)
               == (if u == NULL then [] else Report(nodes, paths, up, u)) + ReportFrom(nodes, paths, up, v, c + 1)
  {
    hide Report;
    assert PointerOk(nodes, paths, up, v, c);
  }

  // ---------------------------------------------------------------- what the report says

  /** a comes before b in the dictionary; they first differ, or a ends, at position k. */
  ghost predicate BeforeAt(a: seq<int>, b: seq<int>, k: nat) {
    k <= |a| && k < |b| && a[..k] == b[..k] && (k == |a| || a[k] < b[k])
  }

  ghost predicate Before(a: seq<int>, b: seq<int>) {
    exists k: nat :: BeforeAt(a, b, k)
  }

  ghost predicate Increasing(r: seq<Line>) {
    forall i, j :: 0 <= i < j < |r| ==> Before(r[i].0, r[j].0)
  }

  lemma IncreasingJoin(a: seq<Line>, b: seq<Line>)
    requires Increasing(a) && Increasing(b) && forall x, y :: x in a && y in b ==> Before(x.0, y.0)
    ensures Increasing(a + b)
  {
    hide Before;
  }

  /** The line of a node where words end. */
  ghost predicate LineOf(nodes: seq<Node>, paths: seq<Word>, e: Line, u: nat) {
    |nodes| == |paths| && u < |nodes| && nodes[u].count > 0 && e == (paths[u], nodes[u].count + nodes[u].pass)
  }

  ghost predicate IsLine(nodes: seq<Node>, paths: seq<Word>, e: Line) {
    exists u: nat :: LineOf(nodes, paths, e, u)
  }

  /** w goes on after p with character c or a later one. */
  ghost predicate Branches(p: seq<int>, w: seq<int>, c: int) {
    p < w && w[|p|] >= c
  }

  /** Every line printed below v is that of a node below v, and the lines come in dictionary order. */
  lemma {:induction false} ReportSorted(nodes: seq<Node>, paths: seq<Word>, up: seq<nat>, v: nat)
    requires Shaped(nodes, paths, up) && v < |nodes|
    ensures Increasing(Report(nodes, paths, up, v))
    ensures forall e :: e in Report(nodes, paths, up, v) ==> paths[v] <= e.0 && IsLine(nodes, paths, e)
    decreases |nodes| - v, TREE_WIDTH + 1
  {
    var own, rest := Own(nodes, paths, v), ReportFrom(nodes, paths, up, v, 0);
    ReportFromSorted(nodes, paths, up, v, 0);
    assert Report(nodes, paths, up, v) == own + rest;
    hide Shaped;
    hide Report;
    hide ReportFrom;
    forall x, y | x in own && y in rest ensures Before(x.0, y.0) {
      assert BeforeAt(x.0, y.0, |paths[v]|);
    }
    forall x | x in own ensures IsLine(nodes, paths, x) {
      assert LineOf(nodes, paths, x, v);
    }
    hide IsLine;
    hide Before;
    IncreasingJoin(own, rest);
  }

  lemma {:induction false} ReportFromSorted(nodes: seq<Node>, paths: seq<Word>, up: seq<nat>, v: nat, c: nat)
    requires Shaped(nodes, paths, up) && v < |nodes| && c <= TREE_WIDTH
    ensures Increasing(ReportFrom(nodes, paths, up, v, c))
    ensures forall e :: e in ReportFrom(nodes, paths, up, v, c) ==>
              Branches(paths[v], e.0, c) && IsLine(nodes, paths, e)
    decreases |nodes| - v, TREE_WIDTH - c
  {
    if c < TREE_WIDTH {
      hide IsLine;
      hide Report;
      ReportFromUnfolds(nodes, paths, up, v, c);
      ReportFromSorted(nodes, paths, up, v, c + 1);
      assert PointerOk(nodes, paths, up, v, c);
      var u := nodes[v].next[c];
      if u != NULL {
        ReportSorted(nodes, paths, up, u);
        BlockBefore(paths[v], c, Report(nodes, paths, up, u), ReportFrom(nodes, paths, up, v, c + 1));
      }
    }
  }

  lemma BlockBefore(p: Word, c: nat, block: seq<Line>, rest: seq<Line>)
    requires Increasing(block) && Increasing(rest)
    requires (forall e :: e in block ==> p + [c] <= e.0) && (forall e :: e in rest ==> Branches(p, e.0, c + 1))
    ensures Increasing(block + rest) && forall e :: e in block + rest ==> Branches(p, e.0, c)
  {
    forall x, y | x in block && y in rest ensures Before(x.0, y.0) {
      assert (p + [c])[|p|] == c && x.0[..|p| + 1] == p + [c];
      assert BeforeAt(x.0, y.0, |p|);
    }
    IncreasingJoin(block, rest);
  }

  /** Every node below v where words end has its line in the report. */
  lemma {:induction false} ReportComplete(nodes: seq<Node>, paths: seq<Word>, up: seq<nat>, v: nat, u: nat)
    requires Shaped(nodes, paths, up) && v < |nodes| && u < |nodes| && paths[v] <= paths[u] && nodes[u].count > 0
    ensures (paths[u], nodes[u].count + nodes[u].pass) in Report(nodes, paths, up, v)
    decreases |nodes| - v
  {
    if paths[v] == paths[u] {
      PathsDistinct(nodes, paths, up, v, u);
    } else {
      var k := |paths[v]|;
      var x := PrefixNode(nodes, paths, up, u, k + 1);
      PathsDistinct(nodes, paths, up, up[x], v);
      ReportComplete(nodes, paths, up, x, u);
      ReportFromHolds(nodes, paths, up, v, 0, paths[u][k], (paths[u], nodes[u].count + nodes[u].pass));
    }
  }

  lemma {:induction false} ReportFromHolds(nodes: seq<Node>, paths: seq<Word>, up: seq<nat>, v: nat, c: nat, d: nat,
                e: Line)
    requires Shaped(nodes, paths, up) && v < |nodes| && c <= d < TREE_WIDTH
    requires v < nodes[v].next[d] < |nodes| && e in Report(nodes, paths, up, nodes[v].next[d])
    ensures e in ReportFrom(nodes, paths, up, v, c)
    decreases d - c
  {
    hide Report;
    ReportFromUnfolds(nodes, paths, up, v, c);
    if c < d {
      ReportFromHolds(nodes, paths, up, v, c + 1, d, e);
    }
  }

  /** do_travel lists the distinct inserted words in dictionary order, each once, with the number of
      inserted words that begin with it. */
  lemma TravelReports(nodes: seq<Node>, paths: seq<Word>, up: seq<nat>, words: seq<Word>)
    requires Shaped(nodes, paths, up) && Covered(paths, words) && Counted(nodes, paths, words, [], 0)
    ensures Increasing(Report(nodes, paths, up, 0))
    ensures forall w: Word, n :: (w, n) in Report(nodes, paths, up, 0) <==> w in words && n == Starting(words, w)
    ensures forall e :: e in Report(nodes, paths, up, 0) ==> exists u: nat :: LineOf(nodes, paths, e, u)
  {
    ReportSorted(nodes, paths, up, 0);
    forall w: Word, n ensures (w, n) in Report(nodes, paths, up, 0) <==> w in words && n == Starting(words, w) {
      LineMeans(nodes, paths, up, words, w, n);
    }
  }

  lemma LineMeans(nodes: seq<Node>, paths: seq<Word>, up: seq<nat>, words: seq<Word>, w: Word, n: nat)
    requires Shaped(nodes, paths, up) && Covered(paths, words) && Counted(nodes, paths, words, [], 0)
    ensures (w, n) in Report(nodes, paths, up, 0) <==> w in words && n == Starting(words, w)
  {
    if (w, n) in Report(nodes, paths, up, 0) {
      ReportSorted(nodes, paths, up, 0);
      hide *;
      IsLineHasNode(nodes, paths, words, w, n);
    }
    if w in words && n == Starting(words, w) {
      hide *;
      WordHasLine(nodes, paths, up, words, w);
    }
  }

  lemma IsLineHasNode(nodes: seq<Node>, paths: seq<Word>, words: seq<Word>, w: Word, n: nat)
    requires Counted(nodes, paths, words, [], 0) && IsLine(nodes, paths, (w, n))
    ensures w in words && n == Starting(words, w)
  {
    hide Ends;
    hide Through;
    hide Starting;
    EndsPositive(words, w);
    EndsPlusThrough(words, w);
    var u: nat :| LineOf(nodes, paths, (w, n), u);
    assert nodes[u].count == Ends(words, paths[u]);
  }

  lemma WordHasLine(nodes: seq<Node>, paths: seq<Word>, up: seq<nat>, words: seq<Word>, w: Word)
    requires Shaped(nodes, paths, up) && Covered(paths, words) && Counted(nodes, paths, words, [], 0) && w in words
    ensures (w, Starting(words, w)) in Report(nodes, paths, up, 0)
  {
    EndsPositive(words, w);
    EndsPlusThrough(words, w);
    var u :| 0 <= u < |paths| && paths[u] == w;
    assert nodes[u].count == Ends(words, w) && nodes[u].pass == Through(words, w);
    assert paths[0] <= paths[u];
    hide *;
    ReportComplete(nodes, paths, up, 0, u);
  }

  lemma ShortWords(paths: seq<Word>, words: seq<Word>)
    requires Reached(paths, words) && forall w :: w in words ==> |w| <= WORDLENMAX
    ensures Short(paths)
  {
  }

  /** The end of main: do_travel from the root. */
  method Travel(trie: Trie) returns (printed: seq<Line>)
    requires trie.Valid() && forall w :: w in trie.words ==> |w| <= WORDLENMAX
    ensures Increasing(printed)
    ensures forall w: Word, n :: (w, n) in printed <==> w in trie.words && n == Starting(trie.words, w)
  {
    ShortWords(trie.paths, trie.words);
    TravelReports(trie.nodes, trie.paths, trie.up, trie.words);
    hide *;
    var t := new Traveller();
    Root(trie.nodes, trie.paths, trie.up);
    assert t.worddump[..0] == [];
    t.DoTravel(trie.nodes, 0, trie.paths, trie.up);
    printed := t.printed;
  }

  lemma Root(nodes: seq<Node>, paths: seq<Word>, up: seq<nat>)
    requires Shaped(nodes, paths, up)
    ensures |nodes| == |paths| > 0 && paths[0] == []
  {
  }
}
