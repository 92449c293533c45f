/**
 The leftist heap: merge works on the nodes in place, following the right spines only. The methods
 are proved against a merge of trees, about which the properties of the heap are stated.
 */
module LeftistHeap {
  import opened Arithmetic

  datatype Tree = Nil | Tree(element: int, left: Tree, right: Tree, npl: int)

  /** The null path length field; a missing node counts as -1. */
  function Npl(t: Tree): int { if t.Nil? then -1 else t.npl }

  function Size(t: Tree): nat { if t.Nil? then 0 else 1 + Size(t.left) + Size(t.right) }

  function Elements(t: Tree): multiset<int> {
    if t.Nil? then multiset{} else multiset{t.element} + Elements(t.left) + Elements(t.right)
  }

  // ---------------------------------------------------------------- merge on trees

  function Merge(a: Tree, b: Tree): (r: Tree)
    ensures a.Tree? || b.Tree? ==> r.Tree?
    decreases Size(a) + Size(b), 1
  {
    if a.Nil? then b
    else if b.Nil? then a
    else if a.element < b.element then Merge1(a, b) else Merge1(b, a)
  }

  function Merge1(a: Tree, b: Tree): (r: Tree)
    requires a.Tree? && b.Tree?
    ensures r.Tree?
    decreases Size(a) + Size(b), 0
  {
    if a.left.Nil? then a.(left := b) else Linked(a.element, a.left, Merge(a.right, b))
  }

  /** The node over l and m with the longer null path on the left. */
  function Linked(element: int, l: Tree, m: Tree): (r: Tree)
    ensures r.Tree?
  {
    if Npl(l) < Npl(m) then Tree(element, m, l, Npl(l) + 1) else Tree(element, l, m, Npl(m) + 1)
  }

  // ---------------------------------------------------------------- what merge keeps

  /** No child is smaller than its parent. */
  predicate HeapOrdered(t: Tree) {
    t.Tree? ==>
      && HeapOrdered(t.left) && HeapOrdered(t.right)
      && (t.left.Tree? ==> t.element <= t.left.element)
      && (t.right.Tree? ==> t.element <= t.right.element)
  }

  /** Distance to the nearest missing child. */
  function NullPath(t: Tree): int {
    if t.Nil? then -1 else 1 + Min(NullPath(t.left), NullPath(t.right))
  }

  /** Left subtrees have the longer null paths, and every npl field is exact. */
  predicate Leftist(t: Tree) {
    t.Tree? ==>
      && Leftist(t.left) && Leftist(t.right)
      && NullPath(t.left) >= NullPath(t.right)
      && t.npl == NullPath(t)
  }

  lemma {:induction false} MergeLeftist(a: Tree, b: Tree)
    requires Leftist(a) && Leftist(b)
    ensures Leftist(Merge(a, b))
    decreases Size(a) + Size(b), 1
  {
    if a.Tree? && b.Tree? {
      if a.element < b.element { Merge1Leftist(a, b); } else { Merge1Leftist(b, a); }
    }
  }

  lemma {:induction false} Merge1Leftist(a: Tree, b: Tree)
    requires a.Tree? && b.Tree? && Leftist(a) && Leftist(b)
    ensures Leftist(Merge1(a, b))
    decreases Size(a) + Size(b), 0
  {
    NullPathBound(b);
    NullPathBound(a.right);
    if a.left.Tree? {
      MergeLeftist(a.right, b);
    }
  }

  lemma {:induction false} NullPathBound(t: Tree)
    ensures NullPath(t) >= -1
    ensures t.Tree? ==> NullPath(t) >= 0
    decreases t
  {
    if t.Tree? {
      NullPathBound(t.left);
      NullPathBound(t.right);
    }
  }

  lemma {:induction false} MergeOrdered(a: Tree, b: Tree)
    requires HeapOrdered(a) && HeapOrdered(b)
    ensures HeapOrdered(Merge(a, b))
    ensures a.Tree? && b.Tree? ==> Merge(a, b).element == Min(a.element, b.element)
    decreases Size(a) + Size(b), 1
  {
    if a.Tree? && b.Tree? {
      if a.element < b.element { Merge1Ordered(a, b); } else { Merge1Ordered(b, a); }
    }
  }

  lemma {:induction false} Merge1Ordered(a: Tree, b: Tree)
    requires a.Tree? && b.Tree? && HeapOrdered(a) && HeapOrdered(b) && a.element <= b.element
    ensures HeapOrdered(Merge1(a, b)) && Merge1(a, b).element == a.element
    decreases Size(a) + Size(b), 0
  {
    if a.left.Tree? {
      MergeOrdered(a.right, b);
    }
  }

  /** Nothing is lost or duplicated. */
  lemma {:induction false} MergeElements(a: Tree, b: Tree)
    ensures Elements(Merge(a, b)) == Elements(a) + Elements(b)
    decreases Size(a) + Size(b), 1
  {
    if a.Tree? && b.Tree? {
      hide Elements;
      hide Merge1;
      if a.element < b.element { Merge1Elements(a, b); } else { Merge1Elements(b, a); }
    }
  }

  lemma {:induction false} Merge1Elements(a: Tree, b: Tree)
    requires a.Tree? && b.Tree?
    ensures Elements(Merge1(a, b)) == Elements(a) + Elements(b)
    decreases Size(a) + Size(b), 0
  {
    if a.left.Tree? {
      hide Merge;
      var m := Merge(a.right, b);
      MergeElements(a.right, b);
      Regroup(multiset{a.element}, Elements(a.left), Elements(a.right), Elements(b));
    }
  }

  lemma Regroup(e: multiset<int>, l: multiset<int>, r: multiset<int>, b: multiset<int>)
    ensures e + l + (r + b) == e + l + r + b
    ensures e + (r + b) + l == e + l + r + b
  {
  }

  // ---------------------------------------------------------------- cost

  function RightSpine(t: Tree): nat { if t.Nil? then 0 else 1 + RightSpine(t.right) }

  /** How many times merge calls itself through merge1. */
  function Calls(a: Tree, b: Tree): nat
    decreases Size(a) + Size(b), 1
  {
    if a.Nil? || b.Nil? then 0 else if a.element < b.element then Calls1(a, b) else Calls1(b, a)
  }

  function Calls1(a: Tree, b: Tree): nat
    requires a.Tree? && b.Tree?
    decreases Size(a) + Size(b), 0
  {
    if a.left.Nil? then 0 else 1 + Calls(a.right, b)
  }

  lemma {:induction false} CallsAlongSpines(a: Tree, b: Tree)
    ensures Calls(a, b) <= RightSpine(a) + RightSpine(b)
    decreases Size(a) + Size(b)
  {
    if a.Tree? && b.Tree? {
      var (x, y) := if a.element < b.element then (a, b) else (b, a);
      if x.left.Tree? { CallsAlongSpines(x.right, y); }
    }
  }

  /** A leftist tree is exponentially larger than its right spine is long. */
  lemma {:induction false} SpineIsShort(t: Tree)
    requires Leftist(t)
    ensures RightSpine(t) == Npl(t) + 1 == NullPath(t) + 1
    ensures Size(t) >= Pow2(RightSpine(t)) - 1
    decreases t
  {
    if t.Tree? {
      SpineIsShort(t.left);
      SpineIsShort(t.right);
      Pow2Monotone(RightSpine(t.right), RightSpine(t.left));
    }
  }

  lemma SpineBound(t: Tree, k: nat)
    requires Leftist(t) && Size(t) < Pow2(k)
    ensures RightSpine(t) <= k
  {
    hide Size;
    hide Leftist;
    hide RightSpine;
    SpineIsShort(t);
    if RightSpine(t) > k { Pow2Monotone(k + 1, RightSpine(t)); }
  }

  /** Merging two heaps of fewer than 2^k nodes each takes at most 2k recursive calls. */
  lemma MergeIsLogarithmic(a: Tree, b: Tree, k: nat)
    requires Leftist(a) && Leftist(b) && Size(a) < Pow2(k) && Size(b) < Pow2(k)
    ensures Calls(a, b) <= 2 * k
  {
    CallsAlongSpines(a, b);
    SpineBound(a, k);
    SpineBound(b, k);
  }

  // ---------------------------------------------------------------- draining

  /** The results of findMin before each of the deleteMin calls that empty the heap. */
  function Drain(t: Tree): seq<int>
    requires Leftist(t)
    decreases Size(t)
  {
    if t.Nil? then [] else
    MergeLeftist(t.left, t.right);
    MergeSize(t.left, t.right);
    [t.element] + Drain(Merge(t.left, t.right))
  }

  lemma {:induction false} MergeSize(a: Tree, b: Tree)
    ensures Size(Merge(a, b)) == Size(a) + Size(b)
    decreases Size(a) + Size(b)
  {
    if a.Tree? && b.Tree? {
      var (x, y) := if a.element < b.element then (a, b) else (b, a);
      if x.left.Tree? { MergeSize(x.right, y); }
    }
  }

  lemma {:induction false} RootIsLeast(t: Tree, x: int)
    requires t.Tree? && HeapOrdered(t) && x in Elements(t)
    ensures t.element <= x
    decreases t
  {
    if x != t.element {
      if x in Elements(t.left) { RootIsLeast(t.left, x); } else { RootIsLeast(t.right, x); }
    }
  }

  ghost predicate Increasing(d: seq<int>) {
    forall i, j :: 0 <= i <= j < |d| ==> d[i] <= d[j]
  }

  /** Deleting minima until the heap is empty sorts its contents. */
  lemma {:induction false} DrainSorts(t: Tree)
    requires Leftist(t) && HeapOrdered(t)
    ensures multiset(Drain(t)) == Elements(t)
    ensures Increasing(Drain(t))
    decreases Size(t)
  {
    if t.Tree? {
      hide Merge;
      hide Elements;
      hide Drain;
      hide Increasing;
      var rest := Merge(t.left, t.right);
      MergeLeftist(t.left, t.right);
      MergeOrdered(t.left, t.right);
      MergeSize(t.left, t.right);
      DrainSorts(rest);
      DrainUnfolds(t);
      DrainStep(t, Drain(rest));
    } else {
      assert Drain(t) == [] && Elements(t) == multiset{};
    }
  }

  lemma DrainUnfolds(t: Tree)
    requires t.Tree? && Leftist(t)
    ensures Leftist(Merge(t.left, t.right)) && Drain(t) == [t.element] + Drain(Merge(t.left, t.right))
  {
    hide Merge;
    MergeLeftist(t.left, t.right);
  }

  lemma DrainStep(t: Tree, d: seq<int>)
    requires t.Tree? && HeapOrdered(t) && multiset(d) == Elements(Merge(t.left, t.right))
    requires Increasing(d)
    ensures multiset([t.element] + d) == Elements(t)
    ensures Increasing([t.element] + d)
  {
    hide Merge;
    hide HeapOrdered;
    hide Increasing;
    MergeElements(t.left, t.right);
    calc {
      multiset([t.element] + d);
      multiset{t.element} + (Elements(t.left) + Elements(t.right));
      Elements(t);
    }
    RootFirst(t, d);
  }

  lemma RootFirst(t: Tree, d: seq<int>)
    requires t.Tree? && HeapOrdered(t) && Increasing(d) && multiset([t.element] + d) == Elements(t)
    ensures Increasing([t.element] + d)
  {
    hide HeapOrdered;
    hide Elements;
    forall j | 0 <= j < |d| ensures t.element <= d[j] {
      assert ([t.element] + d)[j + 1] in multiset([t.element] + d);
      RootIsLeast(t, d[j]);
    }
  }

  // ---------------------------------------------------------------- the nodes

  class LeftHeapNode {
    var element: int
    var left: LeftHeapNode?
    var right: LeftHeapNode?
    var npl: int
    ghost var repr: set<LeftHeapNode>
    ghost var tree: Tree

    /** The nodes of repr form a tree of disjoint subtrees, described by `tree`. */
    ghost predicate Valid()
      reads this, repr
      decreases repr
    {
      && this in repr
      && (left != null ==> left in repr && left.repr <= repr - {this} && left.Valid())
      && (right != null ==> right in repr && right.repr <= repr - {this} && right.Valid())
      && NodesOf(left) !! NodesOf(right)
      && repr == {this} + NodesOf(left) + NodesOf(right)
      && tree == Tree(element, TreeOf(left), TreeOf(right), npl)
    }

    constructor (x: int)
      ensures Valid() && tree == Tree(x, Nil, Nil, 0) && repr == {this}
    {
      element, npl := x, 0;
      left, right := null, null;
      repr := {this};
      tree := Tree(x, Nil, Nil, 0);
    }

    method SwapChild()
      modifies this`left, this`right
      ensures left == old(right) && right == old(left)
    {
      left, right := right, left;
    }

    /** Re-establishes the node's description after a change of its children. */
    ghost method Describe()
      requires left != null ==> left.Valid() && this !in left.repr
      requires right != null ==> right.Valid() && this !in right.repr
      requires NodesOf(left) !! NodesOf(right)
      modifies this`repr, this`tree
      ensures Valid() && repr == {this} + NodesOf(left) + NodesOf(right)
      ensures tree == Tree(element, TreeOf(left), TreeOf(right), npl)
    {
      repr := {this} + NodesOf(left) + NodesOf(right);
      tree := Tree(element, TreeOf(left), TreeOf(right), npl);
    }
  }

  ghost function NodesOf(q: LeftHeapNode?): set<LeftHeapNode>
    reads q
  {
    if q == null then {} else q.repr
  }

  ghost function TreeOf(q: LeftHeapNode?): Tree
    reads q
  {
    if q == null then Nil else q.tree
  }

  ghost predicate Ok(q: LeftHeapNode?)
    reads q, NodesOf(q)
  {
    q != null ==> q.Valid()
  }

  /** merge; calls counts the recursive calls that are made. */
  method MergeQueues(queue1: LeftHeapNode?, queue2: LeftHeapNode?) returns (r: LeftHeapNode?, ghost calls: nat)
    requires Ok(queue1) && Ok(queue2) && NodesOf(queue1) !! NodesOf(queue2)
    modifies NodesOf(queue1), NodesOf(queue2)
    ensures Ok(r) && NodesOf(r) == old(NodesOf(queue1) + NodesOf(queue2))
    ensures TreeOf(r) == Merge(old(TreeOf(queue1)), old(TreeOf(queue2)))
    ensures calls == Calls(old(TreeOf(queue1)), old(TreeOf(queue2)))
    decreases Size(TreeOf(queue1)) + Size(TreeOf(queue2)), 2
  {
    if queue1 == null {
      return queue2, 0;
    }
    if queue2 == null {
      return queue1, 0;
    }
    if queue1.element < queue2.element {
      r, calls := MergeInto(queue1, queue2);
    } else {
      r, calls := MergeInto(queue2, queue1);
    }
  }

  lemma Merge1Branches(a: Tree, b: Tree)
    requires a.Tree? && b.Tree?
    ensures a.left.Nil? ==> Merge1(a, b) == a.(left := b) && Calls1(a, b) == 0
    ensures a.left.Tree? ==>
              && Merge1(a, b) == Linked(a.element, a.left, Merge(a.right, b)) && Merge(a.right, b).Tree?
              && Calls1(a, b) == 1 + Calls(a.right, b)
  {
  }

  /** merge1 */
  method MergeInto(queue1: LeftHeapNode, queue2: LeftHeapNode) returns (r: LeftHeapNode, ghost calls: nat)
    requires queue1.Valid() && queue2.Valid() && queue1.repr !! queue2.repr
    modifies queue1.repr, queue2.repr
    ensures r == queue1 && r.Valid() && r.repr == old(queue1.repr + queue2.repr)
    ensures r.tree == Merge1(old(queue1.tree), old(queue2.tree))
    ensures calls == Calls1(old(queue1.tree), old(queue2.tree))
    decreases Size(queue1.tree) + Size(queue2.tree), 1
  {
    Merge1Branches(queue1.tree, queue2.tree);
    hide Merge;
    hide Merge1;
    hide Linked;
    hide Calls;
    hide Calls1;
    if queue1.left == null {
      LinkLeft(queue1, queue2);
      calls := 0;
    } else {
      calls := MergeRight(queue1, queue2);
    }
    r := queue1;
  }

  /** The second branch of merge1. */
  method MergeRight(queue1: LeftHeapNode, queue2: LeftHeapNode) returns (ghost calls: nat)
    requires queue1.Valid() && queue2.Valid() && queue1.repr !! queue2.repr && queue1.left != null
    modifies queue1.repr, queue2.repr
    ensures queue1.Valid() && queue1.repr == old(queue1.repr + queue2.repr)
    ensures old(queue1.tree).Tree? && queue1.tree
            == Linked(old(queue1.element), old(queue1.left.tree), Merge(old(queue1.tree).right, old(queue2.tree)))
    ensures calls == 1 + Calls(old(queue1.tree).right, old(queue2.tree))
    decreases Size(queue1.tree) + Size(queue2.tree), 0
  {
    hide Merge;
    hide Linked;
    hide Calls;
    var m;
    m, calls := MergeQueues(queue1.right, queue2);
    LinkRight(queue1, m);
    calls := 1 + calls;
  }

  /** The first branch of merge1. */
  method LinkLeft(queue1: LeftHeapNode, queue2: LeftHeapNode)
    requires queue1.Valid() && queue2.Valid() && queue1.repr !! queue2.repr && queue1.left == null
    modifies queue1
    ensures queue1.Valid() && queue1.repr == old(queue1.repr) + queue2.repr
    ensures queue1.tree == old(queue1.tree).(left := queue2.tree)
  {
    queue1.left := queue2;
    queue1.Describe();
  }

  /** The second half of merge1: attach the merged heap, put the longer null path to the left and set npl. */
  method LinkRight(queue1: LeftHeapNode, m: LeftHeapNode)
    requires queue1.left != null && queue1.left.Valid() && m.Valid()
    requires queue1 !in queue1.left.repr && queue1 !in m.repr && queue1.left.repr !! m.repr
    modifies queue1
    ensures queue1.Valid() && queue1.repr == {queue1} + old(queue1.left.repr) + m.repr
    ensures queue1.tree == Linked(old(queue1.element), old(queue1.left.tree), m.tree)
  {
    ghost var l := queue1.left;
    queue1.right := m;
    if queue1.left.npl < queue1.right.npl {
      queue1.SwapChild();
    }
    queue1.npl := queue1.right.npl + 1;
    assert l.Valid() && m.Valid();
    queue1.Describe();
  }

  /** insert1 */
  method Insert(x: int, queue: LeftHeapNode?) returns (r: LeftHeapNode?)
    requires Ok(queue)
    modifies NodesOf(queue)
    ensures Ok(r) && TreeOf(r) == Merge(Tree(x, Nil, Nil, 0), old(TreeOf(queue)))
    ensures old(Leftist(TreeOf(queue))) ==>
              Leftist(TreeOf(r)) && Elements(TreeOf(r)) == old(Elements(TreeOf(queue))) + multiset{x}
    ensures old(HeapOrdered(TreeOf(queue))) ==> HeapOrdered(TreeOf(r))
  {
    ghost var t := TreeOf(queue);
    var singleNode := new LeftHeapNode(x);
    ghost var calls;
    r, calls := MergeQueues(singleNode, queue);
    ghost var single := Tree(x, Nil, Nil, 0);
    assert Elements(single) == multiset{x};
    if Leftist(t) {
      MergeLeftist(single, t);
      MergeElements(single, t);
    }
    if HeapOrdered(t) {
      MergeOrdered(single, t);
    }
  }

  method DeleteMin(queue: LeftHeapNode?) returns (r: LeftHeapNode?)
    requires Ok(queue)
    modifies NodesOf(queue)
    ensures Ok(r)
    ensures queue == null ==> r == null
    ensures queue != null ==> TreeOf(r) == Merge(old(queue.tree.left), old(queue.tree.right))
    ensures queue != null && old(Leftist(queue.tree)) && old(HeapOrdered(queue.tree)) ==>
              && Leftist(TreeOf(r)) && HeapOrdered(TreeOf(r))
              && Elements(TreeOf(r)) + multiset{old(queue.element)} == old(Elements(queue.tree))
              && Drain(old(queue.tree)) == [old(queue.element)] + Drain(TreeOf(r))
  {
    if queue == null {
      return queue;
    }
    hide Leftist;
    hide HeapOrdered;
    hide Elements;
    hide Drain;
    hide Merge;
    ghost var t := queue.tree;
    var leftHeap, rightHeap := queue.left, queue.right;
    ghost var calls;
    r, calls := MergeQueues(leftHeap, rightHeap);
    if Leftist(t) && HeapOrdered(t) {
      DeleteRoot(t);
    }
  }

  lemma DeleteRoot(t: Tree)
    requires t.Tree? && Leftist(t) && HeapOrdered(t)
    ensures var r := Merge(t.left, t.right);
            && Leftist(r) && HeapOrdered(r)
            && Elements(r) + multiset{t.element} == Elements(t)
            && Drain(t) == [t.element] + Drain(r)
  {
    hide Merge;
    MergeLeftist(t.left, t.right);
    MergeOrdered(t.left, t.right);
    MergeElements(t.left, t.right);
  }
}
