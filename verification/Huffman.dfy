/**
 Huffman construction over an array that holds a forest, the weighted path length of a tree,
 and the code table written through one shared path buffer.
 */
module Huffman {
  import opened Arithmetic

  /** A node without children, or a node with two; a merged node stores the sum of its children. */
  datatype Tree = Leaf(data: int) | Branch(data: int, left: Tree, right: Tree)

  datatype Slot = Null | Root(tree: Tree)

  // ---------------------------------------------------------------- cost of a tree

  /** WeightPathLength: the sum of weight times depth over the leaves, the root being at depth len. */
  function WeightPathLength(t: Tree, len: nat): int {
    match t
    case Leaf(w) => w * len
    case Branch(_, l, r) => WeightPathLength(l, len + 1) + WeightPathLength(r, len + 1)
  }

  function Weight(t: Tree): int {
    match t
    case Leaf(w) => w
    case Branch(_, l, r) => Weight(l) + Weight(r)
  }

  /** Every merged node stores the weight of the leaves below it. */
  predicate Summed(t: Tree) {
    t.Branch? ==> t.data == Weight(t) && Summed(t.left) && Summed(t.right)
  }

  /** Sum of the data of the internal nodes. */
  function InternalSum(t: Tree): int {
    match t
    case Leaf(_) => 0
    case Branch(d, l, r) => d + InternalSum(l) + InternalSum(r)
  }

  /** Sinking a tree one level adds its weight to the path length. */
  lemma {:induction false} DeeperByOne(t: Tree, len: nat)
    ensures WeightPathLength(t, len + 1) == WeightPathLength(t, len) + Weight(t)
    decreases t
  {
    match t
    case Leaf(w) => assert w * (len + 1) == w * len + w;
    case Branch(_, l, r) =>
      DeeperByOne(l, len + 1);
      DeeperByOne(r, len + 1);
  }

  /** The path length of a merged tree is the sum of its internal nodes. */
  lemma {:induction false} CostIsInternalSum(t: Tree)
    requires Summed(t)
    ensures WeightPathLength(t, 0) == InternalSum(t)
    ensures t.data == Weight(t)
    decreases t
  {
    match t
    case Leaf(_) =>
    case Branch(_, l, r) =>
      CostIsInternalSum(l);
      CostIsInternalSum(r);
      DeeperByOne(l, 0);
      DeeperByOne(r, 0);
  }

  // ---------------------------------------------------------------- a tree as weights and depths

  /** Leaf weights from left to right. */
  function Frontier(t: Tree): (ws: seq<int>)
    ensures |ws| >= 1
    ensures t.Branch? ==> |ws| >= 2
  {
    match t
    case Leaf(w) => [w]
    case Branch(_, l, r) => Frontier(l) + Frontier(r)
  }

  /** Leaf depths from left to right, the root being at depth len. */
  function Depths(t: Tree, len: nat): (ds: seq<nat>)
    ensures |ds| == |Frontier(t)|
  {
    match t
    case Leaf(_) => [len]
    case Branch(_, l, r) => Depths(l, len + 1) + Depths(r, len + 1)
  }

  function Height(t: Tree): nat {
    match t
    case Leaf(_) => 0
    case Branch(_, l, r) => 1 + if Height(l) >= Height(r) then Height(l) else Height(r)
  }

  function Dot(ws: seq<int>, ds: seq<nat>): int
    requires |ws| == |ds|
  {
    if ws == [] then 0 else ws[0] * ds[0] + Dot(ws[1..], ds[1..])
  }

  lemma {:induction false} DotAppend(ws: seq<int>, ds: seq<nat>, ws': seq<int>, ds': seq<nat>)
    requires |ws| == |ds| && |ws'| == |ds'|
    ensures Dot(ws + ws', ds + ds') == Dot(ws, ds) + Dot(ws', ds')
    decreases |ws|
  {
    if ws == [] {
      assert ws + ws' == ws' && ds + ds' == ds';
    } else {
      DotAppend(ws[1..], ds[1..], ws', ds');
      assert (ws + ws')[1..] == ws[1..] + ws' && (ds + ds')[1..] == ds[1..] + ds';
    }
  }

  /** Change of cost when the weight at a place of the given depth changes from was to w. */
  function Change(w: int, was: int, depth: nat): int {
    (w - was) * depth
  }

  lemma {:induction false} DotUpdate(ws: seq<int>, ds: seq<nat>, i: nat, w: int)
    requires |ws| == |ds| && i < |ws|
    ensures Dot(ws[i := w], ds) == Dot(ws, ds) + Change(w, ws[i], ds[i])
    decreases |ws|
  {
    if i == 0 {
      assert ws[0 := w][1..] == ws[1..];
      assert (w - ws[0]) * ds[0] == w * ds[0] - ws[0] * ds[0];
    } else {
      DotUpdate(ws[1..], ds[1..], i - 1, w);
      assert ws[i := w][1..] == ws[1..][i - 1 := w];
    }
  }

  lemma {:induction false} CostIsDot(t: Tree, len: nat)
    ensures WeightPathLength(t, len) == Dot(Frontier(t), Depths(t, len))
    decreases t
  {
    match t
    case Leaf(w) =>
    case Branch(_, l, r) =>
      CostIsDot(l, len + 1);
      CostIsDot(r, len + 1);
      DotAppend(Frontier(l), Depths(l, len + 1), Frontier(r), Depths(r, len + 1));
  }

  /** The tree of the same shape with other leaf weights. */
  function Refill(t: Tree, ws: seq<int>): (r: Tree)
    requires |ws| == |Frontier(t)|
    ensures r.Branch? <==> t.Branch?
    ensures Frontier(r) == ws
    decreases t
  {
    match t
    case Leaf(_) => Leaf(ws[0])
    case Branch(d, l, r) =>
      var k := |Frontier(l)|;
      assert ws == ws[..k] + ws[k..];
      Branch(d, Refill(l, ws[..k]), Refill(r, ws[k..]))
  }

  lemma {:induction false} RefillKeepsDepths(t: Tree, ws: seq<int>, len: nat)
    requires |ws| == |Frontier(t)|
    ensures Depths(Refill(t, ws), len) == Depths(t, len)
    decreases t
  {
    match t
    case Leaf(_) =>
    case Branch(_, l, r) =>
      RefillKeepsDepths(l, ws[..|Frontier(l)|], len + 1);
      RefillKeepsDepths(r, ws[|Frontier(l)|..], len + 1);
  }

  /** Leaves i and i+1 are the two children of one node. */
  predicate Siblings(t: Tree, i: nat) {
    match t
    case Leaf(_) => false
    case Branch(_, l, r) =>
      var k := |Frontier(l)|;
      || (l.Leaf? && r.Leaf? && i == 0)
      || (i + 1 < k && Siblings(l, i))
      || (i >= k && Siblings(r, i - k))
  }

  lemma {:induction false} RefillKeepsSiblings(t: Tree, ws: seq<int>, i: nat)
    requires |ws| == |Frontier(t)|
    ensures Siblings(Refill(t, ws), i) == Siblings(t, i)
    decreases t
  {
    match t
    case Leaf(_) =>
    case Branch(_, l, r) =>
      var k := |Frontier(l)|;
      RefillKeepsSiblings(l, ws[..k], i);
      if i >= k { RefillKeepsSiblings(r, ws[k..], i - k); }
  }

  lemma {:induction false} DepthBound(t: Tree, len: nat)
    ensures forall j :: 0 <= j < |Depths(t, len)| ==> Depths(t, len)[j] <= len + Height(t)
    decreases t
  {
    match t
    case Leaf(_) =>
    case Branch(_, l, r) =>
      DepthBound(l, len + 1);
      DepthBound(r, len + 1);
  }

  /** Some pair of siblings is as deep as any leaf. */
  lemma {:induction false} DeepestSiblings(t: Tree, len: nat) returns (i: nat)
    requires t.Branch?
    ensures i + 1 < |Frontier(t)| && Siblings(t, i)
    ensures Depths(t, len)[i] == Depths(t, len)[i + 1] == len + Height(t)
    decreases t
  {
    var l, r := t.left, t.right;
    if l.Leaf? && r.Leaf? {
      i := 0;
    } else if Height(l) >= Height(r) {
      i := DeepestSiblings(l, len + 1);
    } else {
      i := DeepestSiblings(r, len + 1);
      i := i + |Frontier(l)|;
    }
  }

  /** The weights with entries i and i+1 added up. */
  function PairUp(ws: seq<int>, i: nat): (r: seq<int>)
    requires i + 1 < |ws|
  {
    ws[..i] + [ws[i] + ws[i + 1]] + ws[i + 2..]
  }

  lemma PairUpAppend(a: seq<int>, b: seq<int>, i: nat)
    requires i + 1 < |a| + |b|
    ensures i + 1 < |a| ==> PairUp(a + b, i) == PairUp(a, i) + b
    ensures i >= |a| ==> PairUp(a + b, i) == a + PairUp(b, i - |a|)
  {
  }

  /** Replaces the sibling leaves i and i+1 by one leaf of their joint weight. */
  function Collapse(t: Tree, i: nat): (r: Tree)
    requires Siblings(t, i)
    decreases t
  {
    var k := |Frontier(t.left)|;
    if t.left.Leaf? && t.right.Leaf? && i == 0 then Leaf(t.left.data + t.right.data)
    else if i + 1 < k && Siblings(t.left, i) then Branch(t.data, Collapse(t.left, i), t.right)
    else Branch(t.data, t.left, Collapse(t.right, i - k))
  }

  lemma {:induction false} CollapseFrontier(t: Tree, i: nat)
    requires Siblings(t, i)
    ensures i + 1 < |Frontier(t)|
    ensures Frontier(Collapse(t, i)) == PairUp(Frontier(t), i)
    decreases t
  {
    var a, b := Frontier(t.left), Frontier(t.right);
    if t.left.Leaf? && t.right.Leaf? && i == 0 {
    } else if i + 1 < |a| && Siblings(t.left, i) {
      CollapseFrontier(t.left, i);
      PairUpAppend(a, b, i);
    } else {
      CollapseFrontier(t.right, i - |a|);
      PairUpAppend(a, b, i);
    }
  }

  lemma {:induction false} CollapseCost(t: Tree, i: nat, len: nat)
    requires Siblings(t, i)
    ensures i + 1 < |Frontier(t)|
    ensures WeightPathLength(t, len)
         == WeightPathLength(Collapse(t, i), len) + Frontier(t)[i] + Frontier(t)[i + 1]
    decreases t
  {
    var k := |Frontier(t.left)|;
    CollapseFrontier(t, i);
    if t.left.Leaf? && t.right.Leaf? && i == 0 {
      JointLeaf(t.left.data, t.right.data, len);
    } else if i + 1 < k && Siblings(t.left, i) {
      CollapseCost(t.left, i, len + 1);
    } else {
      CollapseCost(t.right, i - k, len + 1);
    }
  }

  lemma JointLeaf(a: int, b: int, len: nat)
    ensures a * (len + 1) + b * (len + 1) == (a + b) * len + a + b
  {
  }

  // ---------------------------------------------------------------- the exchange argument

  function Swapped(ws: seq<int>, i: nat, j: nat): (r: seq<int>)
    requires i < |ws| && j < |ws|
    ensures multiset(r) == multiset(ws)
    ensures |r| == |ws|
  {
    var r := ws[i := ws[j]][j := ws[i]];
    SwapPermutes(ws, i, j);
    r
  }

  lemma SwapPermutes(ws: seq<int>, i: nat, j: nat)
    requires i < |ws| && j < |ws|
    ensures multiset(ws[i := ws[j]][j := ws[i]]) == multiset(ws)
  {
  }

  /** Moving a weight that is not larger to a place that is not shallower costs nothing. */
  lemma SwapCost(ws: seq<int>, ds: seq<nat>, p: nat, i: nat)
    requires |ws| == |ds| && p < |ws| && i < |ws|
    requires ws[p] <= ws[i] && ds[p] <= ds[i]
    ensures Dot(Swapped(ws, p, i), ds) <= Dot(ws, ds)
  {
    hide Dot;
    hide Change;
    if p != i {
      var mid := ws[p := ws[i]];
      DotUpdate(ws, ds, p, ws[i]);
      DotUpdate(mid, ds, i, ws[p]);
      assert mid[i] == ws[i];
      Exchange(Dot(ws, ds), Dot(mid, ds), Dot(mid[i := ws[p]], ds), ws[p], mid[i], ds[p], ds[i]);
    } else {
      assert Swapped(ws, p, i) == ws;
    }
  }

  lemma Exchange(cost: int, mid: int, after: int, light: int, heavy: int, shallow: nat, deep: nat)
    requires light <= heavy && shallow <= deep
    requires mid == cost + Change(heavy, light, shallow)
    requires after == mid + Change(light, heavy, deep)
    ensures after <= cost
  {
  }

  /** x and y are two smallest weights of w, with their multiplicities. */
  ghost predicate TwoSmallest(w: multiset<int>, x: int, y: int) {
    && x in w && y in w - multiset{x}
    && x <= y
    && forall z :: z in w - multiset{x} ==> y <= z
  }

  lemma IndexOf(ws: seq<int>, x: int, avoid: int) returns (p: nat)
    requires avoid == -1 || 0 <= avoid < |ws|
    requires x in multiset(ws) - (if avoid == -1 then multiset{} else multiset{ws[avoid]})
    ensures p < |ws| && ws[p] == x && p != avoid
  {
    if avoid == -1 {
      assert x in ws;
      p :| p < |ws| && ws[p] == x;
    } else {
      var rest := ws[..avoid] + ws[avoid + 1..];
      assert ws == ws[..avoid] + [ws[avoid]] + ws[avoid + 1..];
      assert multiset(ws) == multiset(rest) + multiset{ws[avoid]};
      assert x in rest;
      var q: nat :| q < |rest| && rest[q] == x;
      p := if q < avoid then q else q + 1;
    }
  }

  /** Taking out entry i takes out one copy of its value. */
  lemma WithoutEntry(ws: seq<int>, i: nat)
    requires i < |ws|
    ensures multiset(ws) - multiset{ws[i]} == multiset(ws[..i] + ws[i + 1..])
  {
    assert ws == ws[..i] + [ws[i]] + ws[i + 1..];
    assert multiset(ws) == multiset(ws[..i] + ws[i + 1..]) + multiset{ws[i]};
  }

  lemma OthersAreLarge(ws: seq<int>, x: int, y: int, i: nat, j: nat)
    requires TwoSmallest(multiset(ws), x, y)
    requires i < |ws| && j < |ws| && i != j && ws[i] == x
    ensures y <= ws[j]
  {
    WithoutEntry(ws, i);
    var rest := ws[..i] + ws[i + 1..];
    assert rest[if j < i then j else j - 1] == ws[j];
    assert ws[j] in multiset(rest);
  }

  /** First move: x to the left sibling place. */
  lemma MoveFirst(ws: seq<int>, ds: seq<nat>, x: int, y: int, i: nat) returns (r: seq<int>)
    requires |ws| == |ds| && i < |ws| && TwoSmallest(multiset(ws), x, y)
    requires forall j :: 0 <= j < |ds| ==> ds[j] <= ds[i]
    ensures multiset(r) == multiset(ws) && |r| == |ws| && r[i] == x
    ensures Dot(r, ds) <= Dot(ws, ds)
  {
    var p := IndexOf(ws, x, -1);
    if i != p { OthersAreLarge(ws, x, y, p, i); }
    SwapCost(ws, ds, p, i);
    r := Swapped(ws, p, i);
  }

  /** Second move: y to the right sibling place, x staying where it is. */
  lemma MoveSecond(ws: seq<int>, ds: seq<nat>, x: int, y: int, i: nat) returns (r: seq<int>)
    requires |ws| == |ds| && i + 1 < |ws| && TwoSmallest(multiset(ws), x, y) && ws[i] == x
    requires forall j :: 0 <= j < |ds| ==> ds[j] <= ds[i + 1]
    ensures multiset(r) == multiset(ws) && |r| == |ws| && r[i] == x && r[i + 1] == y
    ensures Dot(r, ds) <= Dot(ws, ds)
  {
    var q := IndexOf(ws, y, i);
    OthersAreLarge(ws, x, y, i, i + 1);
    SwapCost(ws, ds, q, i + 1);
    r := Swapped(ws, q, i + 1);
  }

  /** Any tree can be rearranged, at no cost, so that two smallest weights are siblings. */
  lemma MoveSmallestToSiblings(t: Tree, x: int, y: int) returns (ws: seq<int>, i: nat)
    requires t.Branch?
    requires TwoSmallest(multiset(Frontier(t)), x, y)
    ensures multiset(ws) == multiset(Frontier(t)) && |ws| == |Frontier(t)|
    ensures i + 1 < |ws| && ws[i] == x && ws[i + 1] == y
    ensures Siblings(t, i)
    ensures Dot(ws, Depths(t, 0)) <= Dot(Frontier(t), Depths(t, 0))
  {
    i := DeepestSiblings(t, 0);
    DepthBound(t, 0);
    ws := MoveFirst(Frontier(t), Depths(t, 0), x, y, i);
    ws := MoveSecond(ws, Depths(t, 0), x, y, i);
  }

  lemma PairUpMultiset(ws: seq<int>, i: nat)
    requires i + 1 < |ws|
    ensures multiset(PairUp(ws, i)) + multiset{ws[i]} + multiset{ws[i + 1]}
            == multiset(ws) + multiset{ws[i] + ws[i + 1]}
  {
    assert ws == ws[..i] + [ws[i]] + [ws[i + 1]] + ws[i + 2..];
  }

  /** Merging two smallest weights first loses nothing: every tree is at least as expensive
      as the merge plus some tree over the merged weights. */
  lemma GreedyChoice(t: Tree, x: int, y: int) returns (t': Tree)
    requires t.Branch? && TwoSmallest(multiset(Frontier(t)), x, y)
    ensures multiset(Frontier(t')) + multiset{x} + multiset{y} == multiset(Frontier(t)) + multiset{x + y}
    ensures WeightPathLength(t', 0) + x + y <= WeightPathLength(t, 0)
  {
    hide Frontier;
    hide WeightPathLength;
    hide Siblings;
    hide TwoSmallest;
    hide Collapse;
    hide Depths;
    hide Dot;
    hide Refill;
    var ws, i := MoveSmallestToSiblings(t, x, y);
    var s := Refill(t, ws);
    RefillKeepsSiblings(t, ws, i);
    t' := Collapse(s, i);
    CollapseFrontier(s, i);
    PairUpMultiset(ws, i);
    CollapseCost(s, i, 0);
    RefillCost(t, ws);
  }

  lemma RefillCost(t: Tree, ws: seq<int>)
    requires |ws| == |Frontier(t)|
    ensures WeightPathLength(Refill(t, ws), 0) == Dot(ws, Depths(t, 0))
    ensures WeightPathLength(t, 0) == Dot(Frontier(t), Depths(t, 0))
  {
    RefillKeepsDepths(t, ws, 0);
    CostIsDot(Refill(t, ws), 0);
    CostIsDot(t, 0);
  }

  // ---------------------------------------------------------------- the forest

  function RootOf(s: Slot): multiset<int> { if s.Root? then multiset{s.tree.data} else multiset{} }
  function LeavesOf(s: Slot): multiset<int> { if s.Root? then multiset(Frontier(s.tree)) else multiset{} }
  function InternalOf(s: Slot): int { if s.Root? then InternalSum(s.tree) else 0 }

  /** Weights at the roots of the forest. */
  function Roots(b: seq<Slot>): multiset<int> {
    if b == [] then multiset{} else RootOf(b[0]) + Roots(b[1..])
  }

  function AllLeaves(b: seq<Slot>): multiset<int> {
    if b == [] then multiset{} else LeavesOf(b[0]) + AllLeaves(b[1..])
  }

  function TotalInternal(b: seq<Slot>): int {
    if b == [] then 0 else InternalOf(b[0]) + TotalInternal(b[1..])
  }

  predicate AllSummed(b: seq<Slot>) {
    forall j :: 0 <= j < |b| && b[j].Root? ==> Summed(b[j].tree)
  }

  lemma {:induction false} RootsUpdate(b: seq<Slot>, k: nat, s: Slot)
    requires k < |b|
    ensures Roots(b[k := s]) + RootOf(b[k]) == Roots(b) + RootOf(s)
    decreases |b|
  {
    if k == 0 {
      assert b[0 := s][1..] == b[1..];
    } else {
      RootsUpdate(b[1..], k - 1, s);
      assert b[k := s][1..] == b[1..][k - 1 := s];
      Prepend(RootOf(b[0]), Roots(b[1..][k - 1 := s]), RootOf(b[k]), Roots(b[1..]), RootOf(s));
    }
  }

  lemma {:induction false} LeavesUpdate(b: seq<Slot>, k: nat, s: Slot)
    requires k < |b|
    ensures AllLeaves(b[k := s]) + LeavesOf(b[k]) == AllLeaves(b) + LeavesOf(s)
    decreases |b|
  {
    if k == 0 {
      assert b[0 := s][1..] == b[1..];
    } else {
      LeavesUpdate(b[1..], k - 1, s);
      assert b[k := s][1..] == b[1..][k - 1 := s];
      Prepend(LeavesOf(b[0]), AllLeaves(b[1..][k - 1 := s]), LeavesOf(b[k]), AllLeaves(b[1..]), LeavesOf(s));
    }
  }

  lemma {:induction false} InternalUpdate(b: seq<Slot>, k: nat, s: Slot)
    requires k < |b|
    ensures TotalInternal(b[k := s]) + InternalOf(b[k]) == TotalInternal(b) + InternalOf(s)
    decreases |b|
  {
    if k == 0 {
      assert b[0 := s][1..] == b[1..];
    } else {
      InternalUpdate(b[1..], k - 1, s);
      assert b[k := s][1..] == b[1..][k - 1 := s];
    }
  }

  lemma Prepend(h: multiset<int>, a: multiset<int>, b: multiset<int>, c: multiset<int>, d: multiset<int>)
    requires a + b == c + d
    ensures (h + a) + b == (h + c) + d
  {
    calc { (h + a) + b; h + (a + b); h + (c + d); (h + c) + d; }
  }

  /** Two replacements in a row: p comes in for x, then y goes. */
  lemma TwoChanges(before: multiset<int>, mid: multiset<int>, after: multiset<int>,
                   x: multiset<int>, y: multiset<int>, p: multiset<int>)
    requires mid + x == before + p && after + y == mid + multiset{}
    ensures after + x + y == before + p
  {
    calc { after + x + y; (after + y) + x; mid + x; before + p; }
  }

  lemma Cancel(a: multiset<int>, b: multiset<int>, c: multiset<int>)
    requires a + b == c
    ensures c - b == a
  {
  }

  lemma {:induction false} RootsMember(b: seq<Slot>, z: int)
    ensures z in Roots(b) <==> exists j :: 0 <= j < |b| && b[j].Root? && b[j].tree.data == z
    decreases |b|
  {
    if b != [] {
      RootsMember(b[1..], z);
      if z in Roots(b[1..]) {
        var j :| 0 <= j < |b[1..]| && b[1..][j].Root? && b[1..][j].tree.data == z;
        assert b[j + 1].Root? && b[j + 1].tree.data == z;
      }
      if j :| 0 <= j < |b| && b[j].Root? && b[j].tree.data == z {
        if j > 0 {
          assert b[1..][j - 1] == b[j];
        }
      }
    }
  }

  /** k1 holds a smallest root and k2 a smallest of the others. */
  ghost predicate Selected(b: seq<Slot>, k1: int, k2: int) {
    && 0 <= k1 < |b| && 0 <= k2 < |b| && k1 != k2
    && b[k1].Root? && b[k2].Root?
    && b[k1].tree.data <= b[k2].tree.data
    && forall j :: 0 <= j < |b| && j != k1 && b[j].Root? ==> b[k2].tree.data <= b[j].tree.data
  }

  lemma SelectedIsTwoSmallest(b: seq<Slot>, k1: nat, k2: nat)
    requires Selected(b, k1, k2)
    ensures TwoSmallest(Roots(b), b[k1].tree.data, b[k2].tree.data)
  {
    var x, y := b[k1].tree.data, b[k2].tree.data;
    var rest := b[k1 := Null];
    RootsUpdate(b, k1, Null);
    Cancel(Roots(rest), multiset{x}, Roots(b));
    RootsMember(b, x);
    assert rest[k2].Root?;
    RootsMember(rest, y);
    forall z | z in Roots(rest) ensures y <= z {
      RootsMember(rest, z);
    }
  }

  /** The forest after merging the trees at k1 and k2 into k1. */
  function Merged(b: seq<Slot>, k1: nat, k2: nat): (r: seq<Slot>)
    requires k1 < |b| && k2 < |b| && b[k1].Root? && b[k2].Root?
  {
    var s, t := b[k1].tree, b[k2].tree;
    b[k1 := Root(Branch(s.data + t.data, s, t))][k2 := Null]
  }

  lemma MergeRoots(b: seq<Slot>, k1: nat, k2: nat)
    requires Selected(b, k1, k2)
    ensures Roots(Merged(b, k1, k2)) + multiset{b[k1].tree.data} + multiset{b[k2].tree.data}
         == Roots(b) + multiset{b[k1].tree.data + b[k2].tree.data}
  {
    hide Roots;
    hide Frontier;
    var s, t := b[k1].tree, b[k2].tree;
    var q := Branch(s.data + t.data, s, t);
    var mid := b[k1 := Root(q)];
    RootsUpdate(b, k1, Root(q));
    RootsUpdate(mid, k2, Null);
    TwoChanges(Roots(b), Roots(mid), Roots(mid[k2 := Null]), multiset{s.data}, multiset{t.data}, multiset{q.data});
  }

  lemma MergeLeaves(b: seq<Slot>, k1: nat, k2: nat)
    requires Selected(b, k1, k2)
    ensures AllLeaves(Merged(b, k1, k2)) == AllLeaves(b)
  {
    hide AllLeaves;
    var s, t := b[k1].tree, b[k2].tree;
    var q := Branch(s.data + t.data, s, t);
    var mid := b[k1 := Root(q)];
    var after := mid[k2 := Null];
    var fs, ft := multiset(Frontier(s)), multiset(Frontier(t));
    LeavesUpdate(b, k1, Root(q));
    LeavesUpdate(mid, k2, Null);
    TwoChanges(AllLeaves(b), AllLeaves(mid), AllLeaves(after), fs, ft, multiset(Frontier(q)));
    CancelBoth(AllLeaves(after), AllLeaves(b), fs, ft);
  }

  lemma CancelBoth(a: multiset<int>, b: multiset<int>, x: multiset<int>, y: multiset<int>)
    requires a + x + y == b + (x + y)
    ensures a == b
  {
    forall e ensures a[e] == b[e] {
      assert (a + x + y)[e] == (b + (x + y))[e];
    }
  }

  lemma MergeInternal(b: seq<Slot>, k1: nat, k2: nat)
    requires Selected(b, k1, k2)
    ensures TotalInternal(Merged(b, k1, k2)) == TotalInternal(b) + b[k1].tree.data + b[k2].tree.data
  {
    hide TotalInternal;
    var s, t := b[k1].tree, b[k2].tree;
    var q := Branch(s.data + t.data, s, t);
    InternalUpdate(b, k1, Root(q));
    InternalUpdate(b[k1 := Root(q)], k2, Null);
  }

  lemma MergeSummed(b: seq<Slot>, k1: nat, k2: nat)
    requires Selected(b, k1, k2) && AllSummed(b)
    ensures AllSummed(Merged(b, k1, k2))
  {
    CostIsInternalSum(b[k1].tree);
    CostIsInternalSum(b[k2].tree);
  }

  /** t' is a tree over the present roots that, with what the forest has spent, is no dearer than t. */
  ghost predicate AtMost(t': Tree, b: seq<Slot>, t: Tree) {
    && multiset(Frontier(t')) == Roots(b)
    && WeightPathLength(t', 0) + TotalInternal(b) <= WeightPathLength(t, 0)
  }

  /** Every tree over the input weights costs at least what the forest has already spent plus
      the cost of some tree over the present roots. */
  ghost predicate NothingLost(input: multiset<int>, b: seq<Slot>) {
    forall t: Tree :: multiset(Frontier(t)) == input ==> exists t': Tree :: AtMost(t', b, t)
  }

  lemma MergeKeepsBound(s: Tree, b: seq<Slot>, t: Tree, k1: nat, k2: nat) returns (s': Tree)
    requires AtMost(s, b, t) && Selected(b, k1, k2)
    ensures AtMost(s', Merged(b, k1, k2), t)
  {
    hide Roots;
    hide TotalInternal;
    hide Frontier;
    hide WeightPathLength;
    hide Merged;
    hide TwoSmallest;
    var x, y := b[k1].tree.data, b[k2].tree.data;
    SelectedIsTwoSmallest(b, k1, k2);
    TwoNeedBranch(s, x, y);
    s' := GreedyChoice(s, x, y);
    MergeRoots(b, k1, k2);
    SameRest(multiset(Frontier(s')), Roots(Merged(b, k1, k2)), multiset{x}, multiset{y});
    MergeInternal(b, k1, k2);
  }

  lemma SameRest(a: multiset<int>, b: multiset<int>, x: multiset<int>, y: multiset<int>)
    requires a + x + y == b + x + y
    ensures a == b
  {
    forall e ensures a[e] == b[e] {
      assert (a + x + y)[e] == (b + x + y)[e];
    }
  }

  lemma TwoNeedBranch(t: Tree, x: int, y: int)
    requires TwoSmallest(multiset(Frontier(t)), x, y)
    ensures t.Branch?
  {
  }

  lemma MergeLosesNothing(input: multiset<int>, b: seq<Slot>, k1: nat, k2: nat)
    requires NothingLost(input, b) && Selected(b, k1, k2)
    ensures NothingLost(input, Merged(b, k1, k2))
  {
    forall t: Tree | multiset(Frontier(t)) == input
      ensures exists t': Tree :: AtMost(t', Merged(b, k1, k2), t)
    {
      var s: Tree :| AtMost(s, b, t);
      var s' := MergeKeepsBound(s, b, t, k1, k2);
    }
  }

  lemma {:induction false} LeafForest(ws: seq<int>, b: seq<Slot>)
    requires |b| == |ws| && forall j :: 0 <= j < |b| ==> b[j] == Root(Leaf(ws[j]))
    ensures Roots(b) == AllLeaves(b) == multiset(ws) && TotalInternal(b) == 0
    decreases |ws|
  {
    if ws != [] {
      LeafForest(ws[1..], b[1..]);
      FirstAndRest(ws);
    }
  }

  lemma FirstAndRest(ws: seq<int>)
    requires ws != []
    ensures multiset(ws) == multiset{ws[0]} + multiset(ws[1..])
  {
    assert ws == [ws[0]] + ws[1..];
  }

  // ---------------------------------------------------------------- counting the trees that remain

  function Live(b: seq<Slot>): nat { |Roots(b)| }

  lemma {:induction false} AllNull(b: seq<Slot>)
    requires forall j :: 0 <= j < |b| ==> b[j].Null?
    ensures Roots(b) == AllLeaves(b) == multiset{} && TotalInternal(b) == 0
    decreases |b|
  {
    if b != [] { AllNull(b[1..]); }
  }

  lemma AllButOneNull(b: seq<Slot>, k: nat)
    requires k < |b| && forall j :: 0 <= j < |b| && j != k ==> b[j].Null?
    ensures Roots(b) == RootOf(b[k]) && AllLeaves(b) == LeavesOf(b[k]) && TotalInternal(b) == InternalOf(b[k])
  {
    hide Roots;
    hide AllLeaves;
    hide TotalInternal;
    AllNull(b[k := Null]);
    RootsUpdate(b, k, Null);
    LeavesUpdate(b, k, Null);
    InternalUpdate(b, k, Null);
    assert Roots(b) == Roots(b) + RootOf(Null) == multiset{} + RootOf(b[k]);
    assert AllLeaves(b) == AllLeaves(b) + LeavesOf(Null) == multiset{} + LeavesOf(b[k]);
  }

  /** With one tree left every other slot is empty. */
  lemma SingleTree(b: seq<Slot>, k: nat)
    requires k < |b| && b[k].Root? && Live(b) == 1
    ensures forall j :: 0 <= j < |b| && j != k ==> b[j].Null?
  {
    var rest := b[k := Null];
    RootsUpdate(b, k, Null);
    assert |Roots(rest) + multiset{b[k].tree.data}| == |Roots(rest)| + 1;
    forall j | 0 <= j < |b| && j != k ensures b[j].Null? {
      if b[j].Root? {
        assert rest[j].Root?;
        RootsMember(rest, b[j].tree.data);
        assert false;
      }
    }
  }

  // ---------------------------------------------------------------- construction

  /** The first two trees of the forest. */
  method FirstTwo(b: array<Slot>) returns (k1: int, k2: int)
    requires Live(b[..]) >= 2
    ensures 0 <= k1 < k2 < b.Length && b[k1].Root? && b[k2].Root?
    ensures forall j :: 0 <= j < k2 && j != k1 ==> b[j].Null?
  {
    k1, k2 := -1, -1;
    var j := 0;
    while j < b.Length
      invariant 0 <= j <= b.Length
      invariant k1 == -1 ==> forall i :: 0 <= i < j ==> b[i].Null?
      invariant k1 != -1 ==> 0 <= k1 < j && b[k1].Root? && forall i :: 0 <= i < j && i != k1 ==> b[i].Null?
      invariant k2 == -1
    {
      if b[j].Root? && k1 == -1 {
        k1 := j;
        j := j + 1;
        continue;
      }
      if b[j].Root? {
        k2 := j;
        break;
      }
      j := j + 1;
    }
    if k2 == -1 {
      if k1 == -1 { AllNull(b[..]); } else { AllButOneNull(b[..], k1); }
    }
  }

  /** The tree in slot k comes before that in slot i: it is lighter, or as heavy and further to the left. */
  predicate Precedes(b: seq<Slot>, k: nat, i: nat)
    requires k < |b| && i < |b| && b[k].Root? && b[i].Root?
  {
    b[k].tree.data < b[i].tree.data || (b[k].tree.data == b[i].tree.data && k < i)
  }

  /** Among equal weights the leftmost trees are selected. */
  ghost predicate SelectedFirst(b: seq<Slot>, k1: nat, k2: nat)
    requires k1 < |b| && k2 < |b| && b[k1].Root? && b[k2].Root?
  {
    && k1 != k2 && Precedes(b, k1, k2)
    && forall i: nat :: i < |b| && i != k1 && i != k2 && b[i].Root? ==> Precedes(b, k2, i)
  }

  /** The selection of the two roots to merge, by one pass from the second tree on. */
  method SelectTwo(b: array<Slot>) returns (k1: int, k2: int)
    requires Live(b[..]) >= 2
    ensures Selected(b[..], k1, k2) && SelectedFirst(b[..], k1, k2)
  {
    k1, k2 := FirstTwo(b);
    ghost var start := k2;
    var j := k2;
    while j < b.Length
      invariant start <= j <= b.Length
      invariant 0 <= k1 < b.Length && 0 <= k2 < b.Length && k1 != k2 && b[k1].Root? && b[k2].Root?
      invariant j == start ==> k1 < k2 == start && forall i :: 0 <= i < j && i != k1 ==> b[i].Null?
      invariant j > start ==> k1 < j && k2 < j && Precedes(b[..], k1, k2)
      invariant j > start ==>
                  forall i :: 0 <= i < j && i != k1 && i != k2 && b[i].Root? ==> Precedes(b[..], k2, i)
    {
      if b[j].Root? {
        if b[j].tree.data < b[k1].tree.data {
          k2 := k1;
          k1 := j;
        } else if b[j].tree.data < b[k2].tree.data {
          k2 := j;
        }
      }
      j := j + 1;
    }
  }

  /** What every round keeps. */
  ghost predicate Progress(input: multiset<int>, b: seq<Slot>, live: nat) {
    && AllSummed(b) && AllLeaves(b) == input && NothingLost(input, b) && Live(b) == live
  }

  /** Of two subtrees with one parent the left one is the lighter. */
  predicate LeftLighter(t: Tree) {
    t.Leaf? || (t.left.data <= t.right.data && LeftLighter(t.left) && LeftLighter(t.right))
  }

  predicate AllLeftLighter(b: seq<Slot>) {
    forall j :: 0 <= j < |b| && b[j].Root? ==> LeftLighter(b[j].tree)
  }

  /** One round: select two trees and put their merge in the place of the smaller one. */
  method MergeRound(b: array<Slot>, ghost input: multiset<int>, ghost live: nat)
    returns (q: Tree, ghost k: nat)
    requires live >= 2 && Progress(input, b[..], live) && AllLeftLighter(b[..])
    modifies b
    ensures Progress(input, b[..], live - 1) && AllLeftLighter(b[..])
    ensures k < b.Length && b[k] == Root(q)
  {
    var k1, k2 := SelectTwo(b);
    ghost var before := b[..];
    MergeProgress(input, before, k1, k2);
    MergeLeftLighter(before, k1, k2);
    q := Branch(b[k1].tree.data + b[k2].tree.data, b[k1].tree, b[k2].tree);
    b[k1] := Root(q);
    b[k2] := Null;
    assert b[..] == Merged(before, k1, k2);
    k := k1;
  }

  lemma LiveDrops(b: seq<Slot>, k1: nat, k2: nat)
    requires Selected(b, k1, k2)
    ensures Live(Merged(b, k1, k2)) == Live(b) - 1
  {
    hide Roots;
    hide Merged;
    var x, y := b[k1].tree.data, b[k2].tree.data;
    MergeRoots(b, k1, k2);
    assert |Roots(Merged(b, k1, k2)) + multiset{x} + multiset{y}| == |Roots(b) + multiset{x + y}|;
  }

  lemma MergeProgress(input: multiset<int>, b: seq<Slot>, k1: nat, k2: nat)
    requires Progress(input, b, Live(b)) && Selected(b, k1, k2) && Live(b) >= 1
    ensures Progress(input, Merged(b, k1, k2), Live(b) - 1)
  {
    hide Roots;
    hide AllLeaves;
    MergeLeaves(b, k1, k2);
    MergeSummed(b, k1, k2);
    MergeLosesNothing(input, b, k1, k2);
    LiveDrops(b, k1, k2);
  }

  lemma MergeLeftLighter(b: seq<Slot>, k1: nat, k2: nat)
    requires Selected(b, k1, k2) && AllLeftLighter(b)
    ensures AllLeftLighter(Merged(b, k1, k2))
  {
    assert b[k1].tree.data <= b[k2].tree.data;
  }

  lemma StartOfForest(ws: seq<int>, b: seq<Slot>)
    requires |b| == |ws| && forall j :: 0 <= j < |b| ==> b[j] == Root(Leaf(ws[j]))
    ensures Progress(multiset(ws), b, |ws|)
  {
    LeafForest(ws, b);
    assert |multiset(ws)| == |ws|;
    forall t: Tree | multiset(Frontier(t)) == multiset(ws) ensures exists t': Tree :: AtMost(t', b, t) {
      assert AtMost(t, b, t);
    }
  }

  lemma EndOfForest(input: multiset<int>, b: seq<Slot>, k: nat)
    requires Progress(input, b, 1) && k < |b| && b[k].Root?
    ensures multiset(Frontier(b[k].tree)) == input && Summed(b[k].tree)
    ensures forall t: Tree :: multiset(Frontier(t)) == input ==>
              WeightPathLength(b[k].tree, 0) <= WeightPathLength(t, 0)
  {
    var q := b[k].tree;
    SingleTree(b, k);
    AllButOneNull(b, k);
    CostIsInternalSum(q);
    forall t: Tree | multiset(Frontier(t)) == input
      ensures WeightPathLength(q, 0) <= WeightPathLength(t, 0)
    {
      var t': Tree :| AtMost(t', b, t);
      SingleLeafCost(t');
    }
  }

  /** Main result: the tree has exactly the given weights at its leaves, the lighter of two siblings is the
      left one, and no tree over these weights has a smaller weighted path length. Weights may be negative. */
  method CreateHuffman(a: array<int>) returns (q: Tree)
    requires a.Length >= 2
    ensures multiset(Frontier(q)) == multiset(a[..])
    ensures Summed(q) && LeftLighter(q) && WeightPathLength(q, 0) == InternalSum(q)
    ensures forall t: Tree :: multiset(Frontier(t)) == multiset(a[..]) ==>
              WeightPathLength(q, 0) <= WeightPathLength(t, 0)
  {
    var n := a.Length;
    var b := new Slot[n](_ => Null);
    for i := 0 to n
      invariant forall j :: 0 <= j < i ==> b[j] == Root(Leaf(a[j]))
    {
      b[i] := Root(Leaf(a[i]));
    }
    ghost var input := multiset(a[..]);
    StartOfForest(a[..], b[..]);
    q := Leaf(0);
    ghost var last := 0;
    for i := 1 to n
      invariant Progress(input, b[..], n - i + 1) && AllLeftLighter(b[..])
      invariant i > 1 ==> 0 <= last < n && b[last] == Root(q)
      invariant a[..] == old(a[..])
    {
      q, last := MergeRound(b, input, n - i + 1);
    }
    EndOfForest(input, b[..], last);
    CostIsInternalSum(q);
  }

  lemma SingleLeafCost(t: Tree)
    requires |multiset(Frontier(t))| == 1
    ensures WeightPathLength(t, 0) == 0
  {
  }

  // ---------------------------------------------------------------- codes

  datatype Code = Code(weight: int, bits: seq<int>)

  /** The table HuffManCoding prints for the subtree reached by the path prefix. */
  function Codes(t: Tree, prefix: seq<int>): (cs: seq<Code>)
    ensures |cs| == |Frontier(t)|
  {
    match t
    case Leaf(w) => [Code(w, prefix)]
    case Branch(_, l, r) => Codes(l, prefix + [0]) + Codes(r, prefix + [1])
  }

  /** From t the bits lead to this leaf, 0 to the left and 1 to the right. */
  predicate LeadsTo(t: Tree, bits: seq<int>, leaf: Tree)
    decreases |bits|
  {
    if bits == [] then t == leaf
    else t.Branch? && 0 <= bits[0] <= 1 && LeadsTo(if bits[0] == 0 then t.left else t.right, bits[1..], leaf)
  }

  /** Every printed line gives the way to its leaf. */
  lemma {:induction false} CodeLeadsToLeaf(t: Tree, prefix: seq<int>, i: nat)
    requires i < |Codes(t, prefix)|
    ensures var c := Codes(t, prefix)[i];
            prefix <= c.bits && LeadsTo(t, c.bits[|prefix|..], Leaf(c.weight))
    decreases t
  {
    var c := Codes(t, prefix)[i];
    match t
    case Leaf(_) =>
    case Branch(_, l, r) =>
      var k := |Codes(l, prefix + [0])|;
      var turn := if i < k then 0 else 1;
      if i < k {
        CodeLeadsToLeaf(l, prefix + [0], i);
      } else {
        CodeLeadsToLeaf(r, prefix + [1], i - k);
      }
      assert c.bits[|prefix|] == (prefix + [turn])[|prefix|];
      assert c.bits[|prefix|..][1..] == c.bits[|prefix + [turn]|..];
  }

  lemma AllCodesLead(t: Tree, prefix: seq<int>)
    ensures forall i :: 0 <= i < |Codes(t, prefix)| ==>
              prefix <= Codes(t, prefix)[i].bits
                && LeadsTo(t, Codes(t, prefix)[i].bits[|prefix|..], Leaf(Codes(t, prefix)[i].weight))
  {
    forall i | 0 <= i < |Codes(t, prefix)|
      ensures prefix <= Codes(t, prefix)[i].bits
                && LeadsTo(t, Codes(t, prefix)[i].bits[|prefix|..], Leaf(Codes(t, prefix)[i].weight))
    {
      CodeLeadsToLeaf(t, prefix, i);
    }
  }

  /** Every way to a leaf is printed. */
  lemma {:induction false} LeafHasCode(t: Tree, prefix: seq<int>, bits: seq<int>, w: int)
    requires LeadsTo(t, bits, Leaf(w))
    ensures Code(w, prefix + bits) in Codes(t, prefix)
    decreases t
  {
    match t
    case Leaf(_) =>
      assert prefix + bits == prefix;
    case Branch(_, l, r) =>
      LeafHasCode(if bits[0] == 0 then l else r, prefix + [bits[0]], bits[1..], w);
      assert prefix + bits == prefix + [bits[0]] + bits[1..];
  }

  /** Reading a text of codes: down from the root by one bit at a time, and back to the root at each leaf. */
  function Decode(root: Tree, t: Tree, bits: seq<int>): seq<int>
    requires root.Branch?
    decreases |bits|, t.Leaf?
  {
    if t.Leaf? then [t.data] + Decode(root, root, bits)
    else if bits == [] then []
    else Decode(root, if bits[0] == 0 then t.left else t.right, bits[1..])
  }

  /** The codes of the lines numbered so, one after the other. */
  function Encode(cs: seq<Code>, lines: seq<nat>): seq<int>
    requires forall k :: 0 <= k < |lines| ==> lines[k] < |cs|
  {
    if lines == [] then [] else cs[lines[0]].bits + Encode(cs, lines[1..])
  }

  lemma {:induction false} DecodeOne(root: Tree, t: Tree, bits: seq<int>, rest: seq<int>, w: int)
    requires root.Branch? && LeadsTo(t, bits, Leaf(w))
    ensures Decode(root, t, bits + rest) == [w] + Decode(root, root, rest)
    decreases |bits|
  {
    if bits == [] {
      assert bits + rest == rest;
    } else {
      assert (bits + rest)[1..] == bits[1..] + rest;
      DecodeOne(root, if bits[0] == 0 then t.left else t.right, bits[1..], rest, w);
    }
  }

  /** Main result of the codes: a text encoded with the printed lines is read back from the tree alone. */
  lemma {:induction false} DecodeEncode(t: Tree, lines: seq<nat>)
    requires t.Branch? && forall k :: 0 <= k < |lines| ==> lines[k] < |Codes(t, [])|
    ensures Decode(t, t, Encode(Codes(t, []), lines))
         == seq(|lines|, k requires 0 <= k < |lines| => Frontier(t)[lines[k]])
    decreases |lines|
  {
    if lines != [] {
      var c := Codes(t, [])[lines[0]];
      CodeLeadsToLeaf(t, [], lines[0]);
      CodesExtend(t, [], lines[0]);
      assert c.bits[0..] == c.bits;
      DecodeOne(t, t, c.bits, Encode(Codes(t, []), lines[1..]), c.weight);
      DecodeEncode(t, lines[1..]);
    }
  }

  /** The recursion with its one static path buffer; the printed lines are returned. */
  method HuffManCoding(t: Tree, len: nat, a: array<int>) returns (printed: seq<Code>)
    requires len + Height(t) <= a.Length
    modifies a
    ensures printed == Codes(t, old(a[..len]))
    ensures forall i :: 0 <= i < |printed| ==>
              old(a[..len]) <= printed[i].bits && LeadsTo(t, printed[i].bits[len..], Leaf(printed[i].weight))
    ensures a[..len] == old(a[..len])
    decreases t
  {
    AllCodesLead(t, a[..len]);
    match t
    case Leaf(w) =>
      printed := [Code(w, a[..len])];
    case Branch(_, l, r) =>
      a[len] := 0;
      assert a[..len + 1] == old(a[..len]) + [0];
      var first := HuffManCoding(l, len + 1, a);
      assert a[..len] == a[..len + 1][..len] == old(a[..len]);
      a[len] := 1;
      assert a[..len + 1] == old(a[..len]) + [1];
      var second := HuffManCoding(r, len + 1, a);
      assert a[..len] == a[..len + 1][..len] == old(a[..len]);
      printed := first + second;
  }

  lemma {:induction false} CodesExtend(t: Tree, prefix: seq<int>, i: nat)
    requires i < |Codes(t, prefix)|
    ensures prefix <= Codes(t, prefix)[i].bits
    ensures Codes(t, prefix)[i].weight == Frontier(t)[i]
    ensures |Codes(t, prefix)[i].bits| == Depths(t, |prefix|)[i]
    decreases t
  {
    match t
    case Leaf(_) =>
    case Branch(_, l, r) =>
      var k := |Codes(l, prefix + [0])|;
      if i < k {
        CodesExtend(l, prefix + [0], i);
      } else {
        CodesExtend(r, prefix + [1], i - k);
      }
  }

  /** No code is a prefix of another one, so a bit string decodes in at most one way. */
  lemma {:induction false} PrefixFree(t: Tree, prefix: seq<int>, i: nat, j: nat)
    requires i < |Codes(t, prefix)| && j < |Codes(t, prefix)| && i != j
    ensures !(Codes(t, prefix)[i].bits <= Codes(t, prefix)[j].bits)
    decreases t
  {
    match t
    case Leaf(_) =>
    case Branch(_, l, r) =>
      var k := |Codes(l, prefix + [0])|;
      if i < k && j < k {
        PrefixFree(l, prefix + [0], i, j);
      } else if i >= k && j >= k {
        PrefixFree(r, prefix + [1], i - k, j - k);
      } else if i < k {
        CodesExtend(l, prefix + [0], i);
        CodesExtend(r, prefix + [1], j - k);
        assert Codes(t, prefix)[i].bits[|prefix|] == 0 && Codes(t, prefix)[j].bits[|prefix|] == 1;
      } else {
        CodesExtend(r, prefix + [1], i - k);
        CodesExtend(l, prefix + [0], j);
        assert Codes(t, prefix)[i].bits[|prefix|] == 1 && Codes(t, prefix)[j].bits[|prefix|] == 0;
      }
  }

  function EncodedLength(cs: seq<Code>): int {
    if cs == [] then 0 else cs[0].weight * |cs[0].bits| + EncodedLength(cs[1..])
  }

  lemma {:induction false} EncodedLengthIsDot(cs: seq<Code>, ws: seq<int>, ds: seq<nat>)
    requires |cs| == |ws| == |ds|
    requires forall i :: 0 <= i < |cs| ==> cs[i].weight == ws[i] && |cs[i].bits| == ds[i]
    ensures EncodedLength(cs) == Dot(ws, ds)
    decreases |cs|
  {
    if cs != [] {
      EncodedLengthIsDot(cs[1..], ws[1..], ds[1..]);
    }
  }

  /** The weighted path length is the total length of the text encoded with the printed codes. */
  lemma CodesRealiseCost(t: Tree)
    ensures EncodedLength(Codes(t, [])) == WeightPathLength(t, 0)
  {
    var cs := Codes(t, []);
    forall i | 0 <= i < |cs|
      ensures cs[i].weight == Frontier(t)[i] && |cs[i].bits| == Depths(t, 0)[i]
    {
      CodesExtend(t, [], i);
    }
    EncodedLengthIsDot(cs, Frontier(t), Depths(t, 0));
    CostIsDot(t, 0);
  }

  // ---------------------------------------------------------------- how long the codes get

  /** A tree is lower than it has leaves. */
  lemma {:induction false} HeightBelowLeaves(t: Tree)
    ensures Height(t) < |Frontier(t)|
    decreases t
  {
    if t.Branch? {
      HeightBelowLeaves(t.left);
      HeightBelowLeaves(t.right);
    }
  }

  ghost predicate Optimal(t: Tree) {
    forall u: Tree :: multiset(Frontier(u)) == multiset(Frontier(t)) ==>
      WeightPathLength(t, 0) <= WeightPathLength(u, 0)
  }

  function Sum(ws: seq<int>): int { if ws == [] then 0 else ws[0] + Sum(ws[1..]) }

  lemma {:induction false} SumAppend(a: seq<int>, b: seq<int>)
    ensures Sum(a + b) == Sum(a) + Sum(b)
    decreases |a|
  {
    if a == [] {
      assert a + b == b;
    } else {
      SumAppend(a[1..], b);
      assert (a + b)[1..] == a[1..] + b;
    }
  }

  lemma {:induction false} SumOfPermutation(a: seq<int>, b: seq<int>)
    requires multiset(a) == multiset(b)
    ensures Sum(a) == Sum(b)
    decreases |a|
  {
    if a == [] {
      assert |multiset(b)| == 0;
    } else {
      var j := SameFirst(a, b);
      SumOfPermutation(a[1..], b[..j] + b[j + 1..]);
      hide *;
      SumSplit(a, 0);
      SumSplit(b, j);
    }
  }

  lemma SameFirst(a: seq<int>, b: seq<int>) returns (j: nat)
    requires a != [] && multiset(a) == multiset(b)
    ensures j < |b| && b[j] == a[0] && multiset(a[1..]) == multiset(b[..j] + b[j + 1..]) && a[1..] == a[..0] + a[1..]
  {
    assert a[0] in multiset(b);
    j :| 0 <= j < |b| && b[j] == a[0];
    WithoutEntry(b, j);
    WithoutEntry(a, 0);
    assert a[..0] + a[1..] == a[1..];
  }

  lemma SumSplit(b: seq<int>, j: nat)
    requires j < |b|
    ensures Sum(b) == b[j] + Sum(b[..j] + b[j + 1..])
  {
    assert b == b[..j] + b[j..] && b[j..] == [b[j]] + b[j + 1..];
    SumAppend(b[..j], b[j..]);
    SumAppend(b[..j], b[j + 1..]);
  }

  lemma {:induction false} WeightIsSum(t: Tree)
    ensures Weight(t) == Sum(Frontier(t))
    decreases t
  {
    if t.Branch? {
      WeightIsSum(t.left);
      WeightIsSum(t.right);
      SumAppend(Frontier(t.left), Frontier(t.right));
    }
  }

  lemma {:induction false} LeafBelowWeight(t: Tree, i: nat)
    requires i < |Frontier(t)| && forall j :: 0 <= j < |Frontier(t)| ==> Frontier(t)[j] >= 0
    ensures Weight(t) >= Frontier(t)[i]
    decreases t
  {
    if t.Branch? {
      var l, r := Frontier(t.left), Frontier(t.right);
      forall j | 0 <= j < |l| ensures l[j] >= 0 { assert Frontier(t)[j] == l[j]; }
      forall j | 0 <= j < |r| ensures r[j] >= 0 { assert Frontier(t)[|l| + j] == r[j]; }
      LeafBelowWeight(t.left, if i < |l| then i else 0);
      LeafBelowWeight(t.right, if i < |l| then 0 else i - |l|);
    }
  }

  lemma {:induction false} DeeperBy(t: Tree, len: nat, k: nat)
    ensures WeightPathLength(t, len + k) == WeightPathLength(t, len) + k * Weight(t)
    decreases k
  {
    if k > 0 {
      DeeperBy(t, len, k - 1);
      DeeperByOne(t, len + k - 1);
    }
  }

  /** Leaf i replaced by a tree. */
  function Graft(t: Tree, i: nat, b: Tree): (r: Tree)
    requires i < |Frontier(t)|
    decreases t
  {
    match t
    case Leaf(_) => b
    case Branch(d, l, r) =>
      if i < |Frontier(l)| then Branch(d, Graft(l, i, b), r) else Branch(d, l, Graft(r, i - |Frontier(l)|, b))
  }

  lemma {:induction false} GraftLeaves(t: Tree, i: nat, b: Tree)
    requires i < |Frontier(t)|
    ensures multiset(Frontier(Graft(t, i, b))) + multiset{Frontier(t)[i]}
            == multiset(Frontier(t)) + multiset(Frontier(b))
    decreases t
  {
    if t.Branch? {
      var l, r := Frontier(t.left), Frontier(t.right);
      if i < |l| {
        GraftLeaves(t.left, i, b);
        var l' := Frontier(Graft(t.left, i, b));
        assert Frontier(Graft(t, i, b)) == l' + r && Frontier(t) == l + r && (l + r)[i] == l[i];
        hide *;
        OneHalfChanged(multiset(l'), multiset(l), multiset(r), multiset{l[i]}, multiset(Frontier(b)));
      } else {
        GraftLeaves(t.right, i - |l|, b);
        var r' := Frontier(Graft(t.right, i - |l|, b));
        assert Frontier(Graft(t, i, b)) == l + r' && Frontier(t) == l + r && (l + r)[i] == r[i - |l|];
        hide *;
        OneHalfChanged(multiset(r'), multiset(r), multiset(l), multiset{r[i - |l|]}, multiset(Frontier(b)));
      }
    }
  }

  lemma OneHalfChanged(x': multiset<int>, x: multiset<int>, y: multiset<int>, w: multiset<int>, b: multiset<int>)
    requires x' + w == x + b
    ensures (x' + y) + w == (x + y) + b && (y + x') + w == (y + x) + b
  {
    assert y + x' == x' + y && y + x == x + y;
    assert (x' + y) + w == (x' + w) + y;
    assert (x + y) + b == (x + b) + y;
  }

  lemma {:induction false} GraftCost(t: Tree, i: nat, b: Tree, len: nat)
    requires i < |Frontier(t)|
    ensures var d := Depths(t, len)[i];
            WeightPathLength(Graft(t, i, b), len)
            == WeightPathLength(t, len) - Frontier(t)[i] * d + WeightPathLength(b, d)
    decreases t
  {
    if t.Branch? {
      var n := |Frontier(t.left)|;
      if i < n { GraftCost(t.left, i, b, len + 1); } else { GraftCost(t.right, i - n, b, len + 1); }
    }
  }

  lemma {:induction false} DepthAtLeast(t: Tree, len: nat, i: nat)
    requires i < |Frontier(t)|
    ensures Depths(t, len)[i] >= if t.Branch? then len + 1 else len
    decreases t
  {
    if t.Branch? {
      var n := |Frontier(t.left)|;
      if i < n { DepthAtLeast(t.left, len + 1, i); } else { DepthAtLeast(t.right, len + 1, i - n); }
    }
  }

  /** A leaf heavier than the whole other half of the tree belongs below the root. */
  lemma HeavyLeafRises(l: Tree, r: Tree, i: nat)
    requires l.Branch? && i < |Frontier(l)| && Weight(r) < Frontier(l)[i]
    ensures var w, rest := Frontier(l)[i], Graft(l, i, r);
            && multiset(Frontier(rest)) + multiset{w} == multiset(Frontier(l)) + multiset(Frontier(r))
            && w + WeightPathLength(rest, 1) < WeightPathLength(l, 1) + WeightPathLength(r, 1)
  {
    hide *;
    var w, d := Frontier(l)[i], Depths(l, 1)[i];
    GraftLeaves(l, i, r);
    GraftCost(l, i, r, 1);
    DepthAtLeast(l, 1, i);
    DeeperBy(r, 1, d - 1);
    LighterIsCheaper(Weight(r), w, d - 1);
  }

  lemma LighterIsCheaper(light: int, heavy: int, k: int)
    requires light < heavy && k > 0
    ensures k * light < k * heavy
    ensures heavy * (k + 1) == k * heavy + heavy
  {
  }

  /** The weights 1, 2, 4, ..., 2^(n-1), and the comb over them. */
  function Powers(n: nat): (ws: seq<int>)
    ensures |ws| == n
  {
    if n == 0 then [] else Powers(n - 1) + [Pow2(n - 1)]
  }

  function Comb(n: nat): (t: Tree)
    requires n >= 1
  {
    if n == 1 then Leaf(1) else Branch(0, Leaf(Pow2(n - 1)), Comb(n - 1))
  }

  lemma {:induction false} PowersFacts(n: nat)
    ensures Sum(Powers(n)) == Pow2(n) - 1
    ensures forall j :: 0 <= j < n ==> Powers(n)[j] >= 0
  {
    if n > 0 {
      PowersFacts(n - 1);
      SumAppend(Powers(n - 1), [Pow2(n - 1)]);
    }
  }

  lemma {:induction false} CombFacts(n: nat)
    requires n >= 1
    ensures multiset(Frontier(Comb(n))) == multiset(Powers(n)) && Height(Comb(n)) == n - 1
  {
    if n > 1 {
      CombFacts(n - 1);
    } else {
      assert Powers(1) == [1];
    }
  }

  /** In a tree over the powers the heaviest leaf outweighs all others together. */
  lemma HeaviestLeaf(n: nat, l: Tree, r: Tree) returns (i: nat, left: bool)
    requires n >= 2 && multiset(Frontier(l) + Frontier(r)) == multiset(Powers(n))
    ensures var (x, y) := if left then (l, r) else (r, l);
            && i < |Frontier(x)| && Frontier(x)[i] == Pow2(n - 1) && Weight(y) < Pow2(n - 1)
            && multiset(Frontier(x)) + multiset(Frontier(y)) == multiset(Powers(n - 1)) + multiset{Pow2(n - 1)}
  {
    hide *;
    var k := HeaviestPower(n, Frontier(l) + Frontier(r));
    WeightOfPowers(n, l, r);
    left := k < |Frontier(l)|;
    if left {
      i := k;
      NonNegative(Frontier(l), Frontier(l) + Frontier(r));
      LeafBelowWeight(l, i);
    } else {
      i := k - |Frontier(l)|;
      NonNegative(Frontier(r), Frontier(l) + Frontier(r));
      LeafBelowWeight(r, i);
      Exchanged(multiset(Frontier(l)), multiset(Frontier(r)));
    }
  }

  lemma Exchanged(x: multiset<int>, y: multiset<int>)
    ensures x + y == y + x
  {
  }

  lemma HeaviestPower(n: nat, all: seq<int>) returns (k: nat)
    requires n >= 2 && multiset(all) == multiset(Powers(n))
    ensures k < |all| && all[k] == Pow2(n - 1)
    ensures multiset(all) == multiset(Powers(n - 1)) + multiset{Pow2(n - 1)}
    ensures forall j :: 0 <= j < |all| ==> all[j] >= 0
  {
    PowersFacts(n);
    NonNegative(all, Powers(n));
    var w := Pow2(n - 1);
    assert Powers(n)[n - 1] == w && w in multiset(Powers(n)) && w in multiset(all);
    k :| 0 <= k < |all| && all[k] == w;
  }

  lemma WeightOfPowers(n: nat, l: Tree, r: Tree)
    requires n >= 1 && multiset(Frontier(l) + Frontier(r)) == multiset(Powers(n))
    ensures Weight(l) + Weight(r) == 2 * Pow2(n - 1) - 1
  {
    PowersFacts(n);
    WeightIsSum(l);
    WeightIsSum(r);
    SumAppend(Frontier(l), Frontier(r));
    SumOfPermutation(Frontier(l) + Frontier(r), Powers(n));
  }

  lemma NonNegative(part: seq<int>, all: seq<int>)
    requires multiset(part) <= multiset(all) && forall j :: 0 <= j < |all| ==> all[j] >= 0
    ensures forall j :: 0 <= j < |part| ==> part[j] >= 0
  {
    forall j | 0 <= j < |part| ensures part[j] >= 0 {
      assert part[j] in multiset(part) && part[j] in multiset(all);
    }
  }

  /** No tree over the powers is cheaper than the comb, and one that is as cheap is as high. */
  lemma {:induction false} CombIsBest(n: nat, t: Tree)
    requires n >= 1 && multiset(Frontier(t)) == multiset(Powers(n))
    ensures WeightPathLength(Comb(n), 0) <= WeightPathLength(t, 0)
    ensures WeightPathLength(Comb(n), 0) == WeightPathLength(t, 0) ==> Height(t) == n - 1
    decreases n, 2
  {
    assert |multiset(Frontier(t))| == |Frontier(t)| && |multiset(Powers(n))| == n;
    if n == 1 {
      OnePower(t);
    } else {
      assert t.Branch?;
      var i, left := HeaviestLeaf(n, t.left, t.right);
      if left { CombStep(n, t.left, t.right, i); } else { CombStep(n, t.right, t.left, i); }
    }
  }

  lemma OnePower(t: Tree)
    requires multiset(Frontier(t)) == multiset(Powers(1)) && |Frontier(t)| == 1
    ensures t == Leaf(1)
  {
    assert Powers(1) == [1];
    assert t.Leaf? && Frontier(t) == [t.data] && t.data in multiset(Frontier(t));
  }

  /** The step, with the heaviest leaf in x and y the other half of the tree. */
  lemma {:induction false} CombStep(n: nat, x: Tree, y: Tree, i: nat)
    requires n >= 2 && i < |Frontier(x)| && Frontier(x)[i] == Pow2(n - 1) && Weight(y) < Pow2(n - 1)
    requires multiset(Frontier(x)) + multiset(Frontier(y)) == multiset(Powers(n - 1)) + multiset{Pow2(n - 1)}
    ensures var cost, best := WeightPathLength(x, 1) + WeightPathLength(y, 1), WeightPathLength(Comb(n), 0);
            && best <= cost
            && (best == cost ==> Height(x) == 0 && Height(y) == n - 2)
    decreases n, 1
  {
    var w := Pow2(n - 1);
    if x.Leaf? {
      SameRest1(multiset(Frontier(y)), multiset(Powers(n - 1)), multiset{w});
      CombTail(n, y);
    } else {
      HeavyLeafRises(x, y, i);
      var rest := Graft(x, i, y);
      SameRest1(multiset(Frontier(rest)), multiset(Powers(n - 1)), multiset{w});
      CombTail(n, rest);
    }
  }

  lemma SameRest1(a: multiset<int>, b: multiset<int>, x: multiset<int>)
    requires a + x == b + x || x + a == b + x
    ensures a == b
  {
    forall e ensures a[e] == b[e] {
      assert (a + x)[e] == (b + x)[e];
    }
  }

  /** Below the heaviest leaf the rest is compared with the shorter comb. */
  lemma {:induction false} CombTail(n: nat, rest: Tree)
    requires n >= 2 && multiset(Frontier(rest)) == multiset(Powers(n - 1))
    ensures var cost, best := Pow2(n - 1) + WeightPathLength(rest, 1), WeightPathLength(Comb(n), 0);
            best <= cost && (best == cost ==> Height(rest) == n - 2)
    decreases n, 0
  {
    hide *;
    CombIsBest(n - 1, rest);
    CombFacts(n - 1);
    CombCost(n);
    OneDeeper(rest);
    SameWeight(rest, Comb(n - 1));
  }

  lemma OneDeeper(t: Tree)
    ensures WeightPathLength(t, 1) == WeightPathLength(t, 0) + Weight(t)
  {
    DeeperByOne(t, 0);
  }

  lemma SameWeight(t: Tree, u: Tree)
    requires multiset(Frontier(t)) == multiset(Frontier(u))
    ensures Weight(t) == Weight(u)
  {
    hide *;
    WeightIsSum(t);
    WeightIsSum(u);
    SumOfPermutation(Frontier(t), Frontier(u));
  }

  lemma CombCost(n: nat)
    requires n >= 2
    ensures WeightPathLength(Comb(n), 0)
            == Pow2(n - 1) + WeightPathLength(Comb(n - 1), 0) + Weight(Comb(n - 1))
  {
    DeeperByOne(Comb(n - 1), 0);
  }

  /** Ten entries suffice for every tree of at most eleven leaves. */
  lemma BufferSuffices(t: Tree, size: nat)
    requires |Frontier(t)| <= size + 1
    ensures Height(t) <= size
  {
    HeightBelowLeaves(t);
  }

  /** With more leaves the powers of two overflow the buffer in every optimal tree. */
  lemma PowersOverflow(t: Tree, n: nat, size: nat)
    requires n >= size + 2 && multiset(Frontier(t)) == multiset(Powers(n)) && Optimal(t)
    ensures Height(t) > size
  {
    CombFacts(n);
    CombIsBest(n, t);
  }

  /** A buffer holds the codes of every optimal tree of n leaves if and only if n is at most its size plus one. */
  lemma BufferSufficesIff(n: nat, size: nat)
    requires n >= 1
    ensures (forall t: Tree :: |Frontier(t)| == n && Optimal(t) ==> Height(t) <= size) <==> n <= size + 1
  {
    if n <= size + 1 {
      forall t: Tree | |Frontier(t)| == n ensures Height(t) <= size { BufferSuffices(t, size); }
    } else {
      CombFacts(n);
      CombOptimal(n);
      assert |multiset(Frontier(Comb(n)))| == |Frontier(Comb(n))| && |multiset(Powers(n))| == n;
    }
  }

  lemma CombOptimal(n: nat)
    requires n >= 1
    ensures Optimal(Comb(n))
  {
    CombFacts(n);
    forall u: Tree | multiset(Frontier(u)) == multiset(Frontier(Comb(n)))
      ensures WeightPathLength(Comb(n), 0) <= WeightPathLength(u, 0)
    {
      CombIsBest(n, u);
    }
  }

  lemma NoPowers()
    ensures Powers(0) == []
  {
  }

  lemma PowersNext(n: nat)
    ensures Powers(n + 1) == Powers(n) + [Pow2(n)]
  {
  }

  /** The witness: the tree CreateHuffman builds for 1, 2, 4, ..., 2048 has codes of eleven bits. */
  method TwelvePowers() returns (q: Tree)
    ensures multiset(Frontier(q)) == multiset(Powers(12)) && Height(q) == 11
  {
    hide *;
    var a := new int[12];
    NoPowers();
    for i := 0 to 12
      invariant a[..i] == Powers(i)
    {
      a[i] := Pow2(i);
      PowersNext(i);
      assert a[..i + 1] == a[..i] + [Pow2(i)];
    }
    assert a[..12] == a[..];
    q := CreateHuffman(a);
    CombFacts(12);
    CombIsBest(12, q);
  }
}
