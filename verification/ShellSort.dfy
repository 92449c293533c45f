/**
 Shell sort in place. A pass with increment h sorts the chains q, q+h, q+2h, ... by insertion; the
 classical theorem that such a pass keeps the array sorted for every earlier increment is proved by
 counting, along a chain, the elements that do not exceed a bound.
 */
module ShellSort {

  /** Elements h apart are in order. */
  ghost predicate HSorted(a: seq<int>, h: nat) {
    forall p: nat {:trigger a[p]} :: p + h < |a| ==> a[p] <= a[p + h]
  }

  ghost predicate Sorted(a: seq<int>) {
    forall p, q :: 0 <= p <= q < |a| ==> a[p] <= a[q]
  }

  // ---------------------------------------------------------------- counting along chains

  /** How many of the elements at q, q+h, q+2h, ... are at most v. */
  function Count(a: seq<int>, q: nat, h: nat, v: int): nat
    requires h > 0
    decreases |a| - q
  {
    if q >= |a| then 0 else (if a[q] <= v then 1 else 0) + Count(a, q + h, h, v)
  }

  /** Every chain of step h holds the same elements in both arrays. */
  ghost predicate SameChains(a: seq<int>, b: seq<int>, h: nat)
    requires h > 0
  {
    |a| == |b| && forall q: nat, v: int :: q < h ==> Count(a, q, h, v) == Count(b, q, h, v)
  }

  /** Position of element k of the chain that starts at q. */
  function At(q: nat, h: nat, k: nat): (p: nat)
    ensures p >= q
    decreases k
  {
    if k == 0 then q else At(q + h, h, k - 1)
  }

  lemma {:induction false} AtNext(q: nat, h: nat, k: nat)
    ensures At(q, h, k + 1) == At(q, h, k) + h
    decreases k
  {
    if k > 0 { AtNext(q + h, h, k - 1); }
  }

  lemma {:induction false} ChainStart(p: nat, h: nat) returns (r: nat, k: nat)
    requires h > 0
    ensures r < h && At(r, h, k) == p
    decreases p
  {
    if p < h {
      r, k := p, 0;
    } else {
      r, k := ChainStart(p - h, h);
      AtNext(r, h, k);
      k := k + 1;
    }
  }

  /** p and p+g lie on chains whose starts differ by g up to whole steps. */
  lemma {:induction false} ChainOffset(p: nat, g: nat, h: nat) returns (r: nat, k: nat, s: nat, d: nat)
    requires h > 0
    ensures r < h && At(r, h, k) == p
    ensures s < h && At(s, h, k + d) == p + g
    ensures At(s, h, d) == r + g
    decreases p
  {
    if p < h {
      r, k := p, 0;
      s, d := ChainStart(p + g, h);
    } else {
      r, k, s, d := ChainOffset(p - h, g, h);
      AtNext(r, h, k);
      AtNext(s, h, k + d);
      k := k + 1;
    }
  }

  /** Leaving out the first d elements of a chain loses at most d. */
  lemma {:induction false} CountSkip(a: seq<int>, q: nat, h: nat, d: nat, v: int)
    requires h > 0
    ensures Count(a, q, h, v) <= d + Count(a, At(q, h, d), h, v)
    decreases d
  {
    if d > 0 {
      CountSkip(a, q + h, h, d - 1, v);
    }
  }

  /** In a g-sorted array the chain g places further on has no more small elements. */
  lemma {:induction false} CountShift(a: seq<int>, q: nat, h: nat, g: nat, v: int)
    requires h > 0 && HSorted(a, g)
    ensures Count(a, q + g, h, v) <= Count(a, q, h, v)
    decreases |a| - q
  {
    if q + g < |a| {
      CountShift(a, q + h, h, g, v);
      assert a[q] <= a[q + g];
    }
  }

  /** On a sorted chain, element k is at most v exactly when at least k+1 elements are. */
  lemma {:induction false} RankOnSortedChain(a: seq<int>, q: nat, h: nat, k: nat, v: int)
    requires h > 0 && HSorted(a, h) && At(q, h, k) < |a|
    ensures a[At(q, h, k)] <= v <==> Count(a, q, h, v) >= k + 1
    decreases k
  {
    if a[q] > v { NoneSmall(a, q, h, v); }
    if k > 0 {
      RankOnSortedChain(a, q + h, h, k - 1, v);
    }
  }

  lemma {:induction false} NoneSmall(a: seq<int>, q: nat, h: nat, v: int)
    requires h > 0 && HSorted(a, h) && (q < |a| ==> a[q] > v)
    ensures Count(a, q, h, v) == 0
    decreases |a| - q
  {
    if q < |a| {
      if q + h < |a| { assert a[q] <= a[q + h]; }
      NoneSmall(a, q + h, h, v);
    }
  }

  lemma OrderKeptAt(a: seq<int>, b: seq<int>, h: nat, g: nat, p: nat)
    requires h > 0 && SameChains(a, b, h) && HSorted(b, h) && HSorted(a, g) && p + g < |b|
    ensures b[p] <= b[p + g]
  {
    hide Count;
    hide At;
    hide HSorted;
    var v := b[p + g];
    var r, k, s, d := ChainOffset(p, g, h);
    RankOnSortedChain(b, s, h, k + d, v);
    CountSkip(a, s, h, d, v);
    CountShift(a, r, h, g, v);
    RankOnSortedChain(b, r, h, k, v);
  }

  /** The preservation theorem: rearranging the chains of step h so that they are sorted keeps the
      array sorted for every increment g for which it was. */
  lemma SortingChainsKeepsOrder(a: seq<int>, b: seq<int>, h: nat, g: nat)
    requires h > 0 && SameChains(a, b, h) && HSorted(b, h) && HSorted(a, g)
    ensures HSorted(b, g)
  {
    forall p: nat | p + g < |b| ensures b[p] <= b[p + g] {
      OrderKeptAt(a, b, h, g, p);
    }
  }

  // ---------------------------------------------------------------- one insertion

  function Swap(a: seq<int>, i: nat, j: nat): (r: seq<int>)
    requires i < |a| && j < |a|
    ensures |r| == |a|
  {
    a[i := a[j]][j := a[i]]
  }

  lemma {:induction false} CountAbove(a: seq<int>, b: seq<int>, j: nat, q: nat, h: nat, v: int)
    requires h > 0 && |a| == |b| && q > j && forall p :: j < p < |a| ==> a[p] == b[p]
    ensures Count(a, q, h, v) == Count(b, q, h, v)
    decreases |a| - q
  {
    if q < |a| { CountAbove(a, b, j, q + h, h, v); }
  }

  /** Exchanging neighbours on a chain changes no count that starts before them. */
  lemma {:induction false} CountSwap(a: seq<int>, j: nat, q: nat, h: nat, v: int)
    requires 0 < h <= j < |a| && q != j
    ensures Count(Swap(a, j - h, j), q, h, v) == Count(a, q, h, v)
    decreases |a| - q
  {
    var b := Swap(a, j - h, j);
    if q > j {
      CountAbove(b, a, j, q, h, v);
    } else if q == j - h {
      CountAbove(b, a, j, j + h, h, v);
      assert Count(a, j, h, v) == (if a[j] <= v then 1 else 0) + Count(a, j + h, h, v);
      assert Count(b, j, h, v) == (if b[j] <= v then 1 else 0) + Count(b, j + h, h, v);
    } else {
      CountSwap(a, j, q + h, h, v);
    }
  }

  lemma SwapKeeps(before: seq<int>, a: seq<int>, j: nat, h: nat)
    requires 0 < h <= j < |a| && SameChains(before, a, h) && multiset(a) == multiset(before)
    ensures SameChains(before, Swap(a, j - h, j), h) && multiset(Swap(a, j - h, j)) == multiset(before)
  {
    hide Count;
    var b := Swap(a, j - h, j);
    forall q: nat, v: int | q < h ensures Count(before, q, h, v) == Count(b, q, h, v) {
      CountSwap(a, j, q, h, v);
    }
  }

  /** Elements h apart are in order up to index i, except possibly at the pair that ends in `hole`. */
  ghost predicate OrderedBut(a: seq<int>, h: nat, i: int, hole: int) {
    forall p: nat {:trigger a[p]} :: p + h <= i && p + h < |a| && p + h != hole ==> a[p] <= a[p + h]
  }

  /** What the inner loop keeps of v, the array with tmp put into the gap at j. */
  ghost predicate Sinking(before: seq<int>, v: seq<int>, h: nat, i: nat, j: nat)
    requires h > 0
  {
    && |v| == |before| && j <= i < |v| && OrderedBut(v, h, i, j)
    && (j >= h && j + h <= i ==> v[j - h] <= v[j + h])
    && SameChains(before, v, h) && multiset(v) == multiset(before)
  }

  lemma SinkStep(before: seq<int>, v: seq<int>, h: nat, i: nat, j: nat)
    requires 0 < h <= j && Sinking(before, v, h, i, j) && v[j] < v[j - h]
    ensures Sinking(before, Swap(v, j - h, j), h, i, j - h)
  {
    hide OrderedBut;
    hide SameChains;
    hide Swap;
    SwapKeeps(before, v, j, h);
    Sink(v, h, i, j);
  }

  lemma SinkEnd(before: seq<int>, v: seq<int>, h: nat, i: nat, j: nat)
    requires h > 0 && Sinking(before, v, h, i, j) && (j >= h ==> v[j - h] <= v[j])
    ensures OrderedBut(v, h, i, -1) && SameChains(before, v, h) && multiset(v) == multiset(before)
  {
    hide SameChains;
  }

  /** The inner loop: tmp sinks along its chain. */
  method Insert(arr: array<int>, i: nat, h: nat)
    requires 0 < h <= i < arr.Length && OrderedBut(arr[..], h, i - 1, -1)
    modifies arr
    ensures OrderedBut(arr[..], h, i, -1)
    ensures SameChains(old(arr[..]), arr[..], h) && multiset(arr[..]) == multiset(old(arr[..]))
  {
    hide SameChains;
    hide Sinking;
    var tmp := arr[i];
    var j: nat := i;
    ghost var before, v := arr[..], arr[..];
    assert v == arr[..][j := tmp];
    SinkStart(v, h, i);
    while j >= h
      invariant j <= i && |v| == arr.Length && v == arr[..][j := tmp]
      invariant Sinking(before, v, h, i, j)
    {
      if tmp < arr[j - h] {
        SinkStep(before, v, h, i, j);
        arr[j] := arr[j - h];
        v := Swap(v, j - h, j);
        j := j - h;
      } else {
        break;
      }
    }
    SinkEnd(before, v, h, i, j);
    arr[j] := tmp;
    assert arr[..] == v;
  }

  lemma SinkStart(v: seq<int>, h: nat, i: nat)
    requires 0 < h <= i < |v| && OrderedBut(v, h, i - 1, -1)
    ensures Sinking(v, v, h, i, i)
  {
  }

  lemma Sink(v: seq<int>, h: nat, i: nat, j: nat)
    requires 0 < h <= j <= i < |v| && OrderedBut(v, h, i, j) && v[j] < v[j - h]
    requires j + h <= i ==> v[j - h] <= v[j + h]
    ensures OrderedBut(Swap(v, j - h, j), h, i, j - h)
    ensures |Swap(v, j - h, j)| == |v|
    ensures j - h >= h ==> Swap(v, j - h, j)[j - h - h] <= Swap(v, j - h, j)[j]
  {
  }

  // ---------------------------------------------------------------- passes

  /** One pass: afterwards the array is h-sorted, and still sorted for every g for which it was. */
  method Pass(arr: array<int>, h: nat)
    requires h > 0
    modifies arr
    ensures HSorted(arr[..], h) && multiset(arr[..]) == multiset(old(arr[..]))
    ensures SameChains(old(arr[..]), arr[..], h)
    ensures forall g: nat :: old(HSorted(arr[..], g)) ==> HSorted(arr[..], g)
  {
    ghost var before := arr[..];
    var i := h;
    while i < arr.Length
      invariant h <= i && (i <= arr.Length || i == h)
      invariant OrderedBut(arr[..], h, i - 1, -1)
      invariant SameChains(before, arr[..], h) && multiset(arr[..]) == multiset(before)
    {
      ghost var mid := arr[..];
      Insert(arr, i, h);
      ChainsTransitive(before, mid, arr[..], h);
      i := i + 1;
    }
    assert HSorted(arr[..], h);
    forall g: nat | HSorted(before, g) ensures HSorted(arr[..], g) {
      SortingChainsKeepsOrder(before, arr[..], h, g);
    }
  }

  lemma ChainsTransitive(a: seq<int>, b: seq<int>, c: seq<int>, h: nat)
    requires h > 0 && SameChains(a, b, h) && SameChains(b, c, h)
    ensures SameChains(a, c, h)
  {
  }

  lemma {:induction false} OneSorted(a: seq<int>, p: nat, q: nat)
    requires HSorted(a, 1) && p <= q < |a|
    ensures a[p] <= a[q]
    decreases q - p
  {
    if p < q {
      assert a[p] <= a[p + 1];
      OneSorted(a, p + 1, q);
    }
  }

  /** The increments of shellSort, from the given one on. */
  function Halvings(increment: nat): (r: seq<nat>)
    ensures forall k :: 0 <= k < |r| ==> r[k] > 0
  {
    if increment == 0 then [] else [increment] + Halvings(increment / 2)
  }

  ghost predicate SortedForAll(a: seq<int>, increments: seq<nat>) {
    forall j :: 0 <= j < |increments| ==> HSorted(a, increments[j])
  }

  /** stages[k] is the array after pass k: it has rearranged the chains of the pass's increment only, and
      is sorted for that increment and for all earlier ones. */
  ghost predicate AfterPass(start: seq<int>, stages: seq<seq<int>>, increments: seq<nat>, k: nat)
    requires k < |stages| <= |increments|
  {
    && increments[k] > 0 && SameChains(if k == 0 then start else stages[k - 1], stages[k], increments[k])
    && SortedForAll(stages[k], increments[..k + 1])
  }

  ghost predicate AfterEachPass(start: seq<int>, stages: seq<seq<int>>, increments: seq<nat>) {
    |stages| <= |increments| && forall k :: 0 <= k < |stages| ==> AfterPass(start, stages, increments, k)
  }

  lemma OneMorePass(start: seq<int>, stages: seq<seq<int>>, increments: seq<nat>, before: seq<int>, after: seq<int>)
    requires AfterEachPass(start, stages, increments) && |stages| < |increments| && increments[|stages|] > 0
    requires before == if stages == [] then start else stages[|stages| - 1]
    requires HSorted(after, increments[|stages|]) && SameChains(before, after, increments[|stages|])
    requires forall g: nat :: HSorted(before, g) ==> HSorted(after, g)
    ensures AfterEachPass(start, stages + [after], increments)
  {
    hide HSorted;
    hide SameChains;
    var n, stages' := |stages|, stages + [after];
    forall j | 0 <= j < n ensures HSorted(after, increments[j]) {
      assert AfterPass(start, stages, increments, n - 1);
      assert increments[..n][j] == increments[j];
    }
    assert SortedForAll(after, increments[..n + 1]);
    hide SortedForAll;
    forall k | 0 <= k < |stages'| ensures AfterPass(start, stages', increments, k) {
      if k < n {
        assert AfterPass(start, stages, increments, k) && stages'[k] == stages[k];
      }
    }
  }

  /** shellSort: the result is a sorted permutation of the input. The passes use the halvings of the length,
      and after each of them the array is sorted for its increment and still for every earlier one. */
  method Sort(arr: array<int>) returns (ghost stages: seq<seq<int>>)
    modifies arr
    ensures Sorted(arr[..]) && multiset(arr[..]) == multiset(old(arr[..]))
    ensures |stages| == |Halvings(arr.Length / 2)| && AfterEachPass(old(arr[..]), stages, Halvings(arr.Length / 2))
    ensures arr[..] == if stages == [] then old(arr[..]) else stages[|stages| - 1]
  {
    hide HSorted;
    hide SameChains;
    hide AfterEachPass;
    hide Halvings;
    hide Sorted;
    ghost var start, increments := arr[..], Halvings(arr.Length / 2);
    stages := [];
    NoPassYet(start, increments);
    var increment := arr.Length / 2;
    while increment > 0
      invariant 0 <= increment && |stages| <= |increments| && increments[|stages|..] == Halvings(increment)
      invariant arr[..] == if stages == [] then start else stages[|stages| - 1]
      invariant multiset(arr[..]) == multiset(start)
      invariant AfterEachPass(start, stages, increments)
      invariant increment == 0 && arr.Length >= 2 ==> HSorted(arr[..], 1)
    {
      ghost var before := arr[..];
      NextHalving(increments, |stages|, increment);
      Pass(arr, increment);
      OneMorePass(start, stages, increments, before, arr[..]);
      stages := stages + [arr[..]];
      increment := increment / 2;
    }
    NoHalving();
    SortedAtLast(arr[..]);
  }

  lemma NextHalving(increments: seq<nat>, n: nat, increment: nat)
    requires n <= |increments| && increment > 0 && increments[n..] == Halvings(increment)
    ensures n < |increments| && increments[n] == increment && increments[n + 1..] == Halvings(increment / 2)
  {
    assert increments[n..][0] == increment && increments[n + 1..] == increments[n..][1..];
  }

  lemma NoHalving()
    ensures Halvings(0) == []
  {
  }

  lemma NoPassYet(start: seq<int>, increments: seq<nat>)
    ensures AfterEachPass(start, [], increments)
  {
  }

  lemma SortedAtLast(a: seq<int>)
    requires |a| >= 2 ==> HSorted(a, 1)
    ensures Sorted(a)
  {
    forall p, q | 0 <= p <= q < |a| ensures a[p] <= a[q] {
      if p < q { OneSorted(a, p, q); }
    }
  }
}
