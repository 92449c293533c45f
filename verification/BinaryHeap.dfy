/**
 The binary heap over an array. insert moves a hole up, deleteMin moves one down; deleteMin may look
 at the slot just past the heap, which still holds the element it is about to place.
 */
module BinaryHeap {

  /** (i - 1) / 2 with division that truncates toward zero. */
  function Parent(i: nat): (p: nat)
    ensures if i == 0 then p == 0 else i == 2 * p + 1 || i == 2 * p + 2
  {
    if i == 0 then 0 else (i - 1) / 2
  }

  ghost predicate Ordered(s: seq<int>) {
    forall k :: 0 < k < |s| ==> s[Parent(k)] <= s[k]
  }

  /** Ordered but for entry i and its parent; the entries around i are ordered across it. */
  ghost predicate OrderedButUp(s: seq<int>, i: nat) {
    && (forall k :: 0 < k < |s| && k != i ==> s[Parent(k)] <= s[k])
    && (forall k :: 0 < k < |s| && Parent(k) == i && i > 0 ==> s[Parent(i)] <= s[k])
  }

  /** Ordered but for entry i and its children. */
  ghost predicate OrderedButDown(s: seq<int>, i: nat) {
    && (forall k :: 0 < k < |s| && Parent(k) != i ==> s[Parent(k)] <= s[k])
    && (forall k :: 0 < k < |s| && Parent(k) == i && 0 < i < |s| ==> s[Parent(i)] <= s[k])
  }

  /** The root of an ordered heap is a minimum. */
  lemma {:induction false} RootIsMinimum(s: seq<int>, k: nat)
    requires Ordered(s) && k < |s|
    ensures s[0] <= s[k]
  {
    if k > 0 {
      RootIsMinimum(s, Parent(k));
    }
  }

  /** Moving the hole from i to p. */
  lemma MoveHole(s: seq<int>, i: nat, p: nat, x: int)
    requires i < |s| && p < |s|
    ensures multiset(s[i := s[p]][p := x]) == multiset(s[i := x])
  {
  }

  /** One step of insert: the parent is larger than x. */
  lemma HoleUp(s: seq<int>, i: nat, x: int)
    requires 0 < i < |s| && OrderedButUp(s[i := x], i) && s[Parent(i)] > x
    ensures OrderedButUp(s[i := s[Parent(i)]][Parent(i) := x], Parent(i))
  {
  }

  /** One step of deleteMin: child c of i is a smallest one and smaller than x. */
  lemma HoleDown(s: seq<int>, i: nat, c: nat, x: int)
    requires i < |s| && 0 < c < |s| && Parent(c) == i && OrderedButDown(s[i := x], i) && s[c] < x
    requires forall k :: 0 < k < |s| && Parent(k) == i ==> s[c] <= s[k]
    ensures OrderedButDown(s[i := s[c]][c := x], c)
  {
  }

  /** The row s with x in its hole i holds `all` and is ordered but for the hole, going up. */
  ghost predicate RisingHole(s: seq<int>, i: nat, x: int, all: multiset<int>) {
    i < |s| && multiset(s[i := x]) == all && OrderedButUp(s[i := x], i)
  }

  ghost predicate SinkingHole(s: seq<int>, i: nat, x: int, all: multiset<int>) {
    i < |s| && multiset(s[i := x]) == all && OrderedButDown(s[i := x], i)
  }

  lemma Rises(s: seq<int>, i: nat, x: int, all: multiset<int>)
    requires i > 0 && RisingHole(s, i, x, all) && s[Parent(i)] > x
    ensures RisingHole(s[i := s[Parent(i)]], Parent(i), x, all)
  {
    hide OrderedButUp;
    HoleUp(s, i, x);
    MoveHole(s, i, Parent(i), x);
  }

  lemma Sinks(s: seq<int>, i: nat, c: nat, x: int, all: multiset<int>)
    requires SinkingHole(s, i, x, all) && c < |s| && (c == 2 * i + 1 || c == 2 * i + 2) && s[c] < x
    requires s[c] <= s[2 * i + 1] && (2 * i + 2 < |s| ==> s[c] <= s[2 * i + 2])
    ensures SinkingHole(s[i := s[c]], c, x, all)
  {
    hide OrderedButDown;
    forall k | 0 < k < |s| && Parent(k) == i ensures s[c] <= s[k] {
      assert k == 2 * i + 1 || k == 2 * i + 2;
    }
    HoleDown(s, i, c, x);
    MoveHole(s, i, c, x);
  }

  lemma StartsRising(s: seq<int>, x: int, y: int)
    requires Ordered(s)
    ensures RisingHole(s + [y], |s|, x, multiset(s) + multiset{x})
  {
  }

  lemma StopsRising(s: seq<int>, i: nat, x: int, all: multiset<int>)
    requires RisingHole(s, i, x, all) && (i == 0 || s[Parent(i)] <= x)
    ensures Ordered(s[i := x]) && multiset(s[i := x]) == all
  {
  }

  /** Taking the root of an ordered heap and its last element. */
  lemma StartsSinking(s: seq<int>) returns (all: multiset<int>)
    requires Ordered(s) && s != []
    ensures multiset(s) == all + multiset{s[0]}
    ensures if |s| == 1 then all == multiset{} else SinkingHole(s[..|s| - 1], 0, s[|s| - 1], all)
  {
    hide Ordered;
    hide OrderedButDown;
    all := multiset(s[1..]);
    assert s == [s[0]] + s[1..];
    if |s| > 1 {
      LastForFirst(s);
      StillOrderedBelow(s);
    }
  }

  lemma LastForFirst<T>(s: seq<T>)
    requires |s| > 1
    ensures multiset(s[..|s| - 1][0 := s[|s| - 1]]) == multiset(s[1..])
  {
    var n := |s| - 1;
    assert s[..n][0 := s[n]] == [s[n]] + s[1..n];
    assert s[1..] == s[1..n] + [s[n]];
  }

  lemma StillOrderedBelow(s: seq<int>)
    requires Ordered(s) && |s| > 1
    ensures OrderedButDown(s[..|s| - 1][0 := s[|s| - 1]], 0)
  {
  }

  lemma StopsSinking(s: seq<int>, i: nat, x: int, all: multiset<int>)
    requires SinkingHole(s, i, x, all)
    requires (2 * i + 1 < |s| ==> x <= s[2 * i + 1]) && (2 * i + 2 < |s| ==> x <= s[2 * i + 2])
    ensures Ordered(s[i := x]) && multiset(s[i := x]) == all
  {
  }

  lemma RootIsLeast(s: seq<int>)
    requires Ordered(s) && s != []
    ensures forall x :: x in multiset(s) ==> s[0] <= x
  {
    forall k | 0 <= k < |s| ensures s[0] <= s[k] { RootIsMinimum(s, k); }
  }

  class Heap {
    const capacity: nat
    const elements: array<int>
    var size: nat

    ghost predicate Valid()
      reads this, elements
    {
      elements.Length == capacity + 1 && size <= capacity && Ordered(elements[..size])
    }

    ghost function Contents(): multiset<int>
      requires size <= elements.Length
      reads this, elements
    {
      multiset(elements[..size])
    }

    /** init; max is not negative. */
    constructor (max: nat)
      ensures Valid() && Contents() == multiset{} && capacity == max && fresh(elements)
    {
      elements := new int[max + 1];
      capacity, size := max, 0;
    }

    method Insert(x: int) returns (ok: bool)
      requires Valid()
      modifies `size, elements
      ensures Valid()
      ensures ok <==> old(size) < capacity
      ensures ok ==> Contents() == old(Contents()) + multiset{x} && size == old(size) + 1
      ensures !ok ==> size == old(size) && elements[..] == old(elements[..])
    {
      if size == capacity {
        return false;
      }
      hide Ordered;
      hide RisingHole;
      var i := size;
      size := size + 1;
      ghost var n := size;
      ghost var all := old(Contents()) + multiset{x};
      assert elements[..n] == old(elements[..size]) + [elements[n - 1]];
      StartsRising(old(elements[..size]), x, elements[n - 1]);
      while elements[Parent(i)] > x && i > 0
        invariant i < n == size && RisingHole(elements[..n], i, x, all)
      {
        ghost var s := elements[..n];
        Rises(s, i, x, all);
        elements[i] := elements[Parent(i)];
        assert elements[..n] == s[i := s[Parent(i)]];
        i := Parent(i);
      }
      StopsRising(elements[..n], i, x, all);
      ghost var f := elements[..n][i := x];
      elements[i] := x;
      assert elements[..n] == f;
      ok := true;
    }

    method DeleteMin() returns (min: int)
      requires Valid()
      modifies `size, elements
      ensures Valid()
      ensures old(size) == 0 ==> min == 0 && size == 0 && elements[..] == old(elements[..])
      ensures old(size) > 0 ==> size == old(size) - 1 && old(Contents()) == Contents() + multiset{min}
      ensures old(size) > 0 ==> forall x :: x in old(Contents()) ==> min <= x
    {
      if size == 0 {
        return 0;
      }
      hide SinkingHole;
      ghost var before := elements[..size];
      min := elements[0];
      RootIsLeast(before);
      size := size - 1;
      var last := elements[size];
      ghost var all := StartsSinking(before);
      assert elements[..size] == before[..size];
      hide Ordered;
      Sink(elements, size, last, all);
    }
  }

  /** The loop of deleteMin: puts last where it belongs. Slot size is outside the heap, but it is read. */
  method Sink(elements: array<int>, size: nat, last: int, ghost all: multiset<int>)
    requires size < elements.Length && elements[size] == last
    requires size > 0 ==> SinkingHole(elements[..size], 0, last, all)
    modifies elements
    ensures size > 0 ==> Ordered(elements[..size]) && multiset(elements[..size]) == all
  {
    hide SinkingHole;
    var i := 0;
    while i * 2 < size
      invariant i <= size && (size > 0 ==> i < size) && elements[size] == last
      invariant size > 0 ==> SinkingHole(elements[..size], i, last, all)
      decreases size - i
    {
      ghost var s := elements[..size];
      var child := i * 2 + 1;
      if child != size && elements[child + 1] < elements[child] {
        child := child + 1;
      }
      if last > elements[child] {
        Sinks(s, i, child, last, all);
        elements[i] := elements[child];
        assert elements[..size] == s[i := s[child]];
      } else {
        break;
      }
      i := child;
    }
    ghost var s := elements[..size];
    if size > 0 {
      StopsSinking(s, i, last, all);
    }
    elements[i] := last;
    assert size > 0 ==> elements[..size] == s[i := last];
  }
}
