/**
 Undirected graphs as an edge multilist: every edge node carries one link per endpoint and hangs in
 the chains of both. Edge pointers are the creation numbers of the nodes, -1 being the null pointer.
 */
module UndirectedGraph {
  import opened Unvisited

  /** vertex[1], vertex[2], link[1], link[2] */
  datatype EdgeNode = EdgeNode(vertex1: nat, vertex2: nat, link1: int, link2: int)

  predicate Incident(e: EdgeNode, v: nat) {
    e.vertex1 == v || e.vertex2 == v
  }

  /** startEnd is end 1 unless vertex[1] differs from the vertex whose chain is followed. */
  function OtherEnd(e: EdgeNode, v: nat): nat { if e.vertex1 != v then e.vertex1 else e.vertex2 }

  function OwnLink(e: EdgeNode, v: nat): int { if e.vertex1 != v then e.link2 else e.link1 }

  /** The youngest edge at v among the first i edges, or -1. */
  function Prev(edges: seq<EdgeNode>, v: nat, i: nat): (p: int)
    requires i <= |edges|
    ensures -1 <= p < i
    ensures p >= 0 ==> Incident(edges[p], v)
    ensures forall j :: p < j < i ==> !Incident(edges[j], v)
  {
    if i == 0 then -1 else if Incident(edges[i - 1], v) then i - 1 else Prev(edges, v, i - 1)
  }

  /** Every owned link points to the next older edge of its vertex, and every list head to the youngest. */
  ghost predicate Multilist(edges: seq<EdgeNode>, first: seq<int>) {
    && (forall i :: 0 <= i < |edges| ==> 1 <= edges[i].vertex1 < |first| && 1 <= edges[i].vertex2 < |first|)
    && (forall i, v: nat :: 0 <= i < |edges| && Incident(edges[i], v) ==> OwnLink(edges[i], v) == Prev(edges, v, i))
    && (forall v: nat :: v < |first| ==> first[v] == Prev(edges, v, |edges|))
  }

  /** The edge numbers met by following the chain of v from pointer p. */
  ghost function Chain(edges: seq<EdgeNode>, v: nat, p: int): seq<int>
    requires -1 <= p < |edges| && (p >= 0 ==> Incident(edges[p], v))
    requires forall i :: 0 <= i < |edges| && Incident(edges[i], v) ==> OwnLink(edges[i], v) == Prev(edges, v, i)
    decreases p
  {
    if p == -1 then [] else
    assert OwnLink(edges[p], v) == Prev(edges, v, p);
    [p] + Chain(edges, v, OwnLink(edges[p], v))
  }

  /** The chain of a vertex ends and visits exactly its incident edges, each once, youngest first. */
  lemma {:induction false} ChainIsIncidence(edges: seq<EdgeNode>, v: nat, p: int, i: nat)
    requires i <= |edges| && p == Prev(edges, v, i)
    requires forall i :: 0 <= i < |edges| && Incident(edges[i], v) ==> OwnLink(edges[i], v) == Prev(edges, v, i)
    ensures forall j :: j in Chain(edges, v, p) <==> 0 <= j < i && Incident(edges[j], v)
    ensures forall x, y :: 0 <= x < y < |Chain(edges, v, p)| ==> Chain(edges, v, p)[x] > Chain(edges, v, p)[y]
    decreases i
  {
    if p >= 0 {
      var rest := Chain(edges, v, OwnLink(edges[p], v));
      ChainIsIncidence(edges, v, OwnLink(edges[p], v), p);
      forall y | 0 <= y < |rest| ensures rest[y] < p {
        assert rest[y] in rest;
      }
    }
  }

  // ---------------------------------------------------------------- reachability

  ghost predicate Adjacent(edges: seq<EdgeNode>, u: nat, v: nat) {
    exists i :: 0 <= i < |edges| && Incident(edges[i], u) && OtherEnd(edges[i], u) == v
  }

  ghost predicate Walk(edges: seq<EdgeNode>, w: seq<nat>) {
    |w| >= 1 && forall i {:trigger w[i]} :: 0 <= i && i + 1 < |w| ==> Adjacent(edges, w[i], w[i + 1])
  }

  ghost predicate Reachable(edges: seq<EdgeNode>, u: nat, v: nat) {
    exists w: seq<nat> :: Walk(edges, w) && w[0] == u && w[|w| - 1] == v
  }

  lemma ReachableStep(edges: seq<EdgeNode>, u: nat, v: nat, x: nat)
    requires Reachable(edges, u, v) && Adjacent(edges, v, x)
    ensures Reachable(edges, u, x)
  {
    var w: seq<nat> :| Walk(edges, w) && w[0] == u && w[|w| - 1] == v;
    var w' := w + [x];
    forall i | 0 <= i && i + 1 < |w'| ensures Adjacent(edges, w'[i], w'[i + 1]) {
      if i + 1 < |w| { assert Adjacent(edges, w[i], w[i + 1]); }
    }
    assert Walk(edges, w');
  }

  lemma ReachableSelf(edges: seq<EdgeNode>, u: nat)
    ensures Reachable(edges, u, u)
  {
    assert Walk(edges, [u]);
  }

  lemma {:induction false} ReachableTransitive(edges: seq<EdgeNode>, u: nat, w: seq<nat>, i: nat)
    requires Walk(edges, w) && i < |w| && Reachable(edges, u, w[0])
    ensures Reachable(edges, u, w[i])
    decreases i
  {
    if i > 0 {
      ReachableTransitive(edges, u, w, i - 1);
      assert Adjacent(edges, w[i - 1], w[i - 1 + 1]);
      ReachableStep(edges, u, w[i - 1], w[i]);
    }
  }

  lemma ReachableJoin(edges: seq<EdgeNode>, u: nat, v: nat, x: nat)
    requires Reachable(edges, u, v) && Reachable(edges, v, x)
    ensures Reachable(edges, u, x)
  {
    var w: seq<nat> :| Walk(edges, w) && w[0] == v && w[|w| - 1] == x;
    ReachableTransitive(edges, u, w, |w| - 1);
  }

  ghost predicate ClosedUnder(edges: seq<EdgeNode>, unvisited: seq<bool>) {
    forall u: nat, v: nat :: u < |unvisited| && !unvisited[u] && Adjacent(edges, u, v) ==>
        v < |unvisited| && !unvisited[v]
  }

  /** A set that is closed under adjacency holds everything reachable from its members. */
  lemma {:induction false} ClosedHoldsWalk(edges: seq<EdgeNode>, unvisited: seq<bool>, w: seq<nat>, i: nat)
    requires Walk(edges, w) && i < |w| && w[0] < |unvisited| && !unvisited[w[0]]
    requires ClosedUnder(edges, unvisited)
    ensures w[i] < |unvisited| && !unvisited[w[i]]
    decreases i
  {
    if i > 0 {
      ClosedHoldsWalk(edges, unvisited, w, i - 1);
      assert Adjacent(edges, w[i - 1], w[i - 1 + 1]);
    }
  }

  // ---------------------------------------------------------------- depth-first search

  predicate AnyLeftOf(unvisited: seq<bool>) {
    exists i :: 1 <= i < |unvisited| && unvisited[i]
  }

  method AnyLeft(unvisited: array<bool>) returns (r: bool)
    ensures r == AnyLeftOf(unvisited[..])
  {
    var i := 1;
    while i < unvisited.Length
      invariant 1 <= i && forall j :: 1 <= j < i && j < unvisited.Length ==> !unvisited[j]
    {
      if unvisited[i] {
        return true;
      }
      i := i + 1;
    }
    return false;
  }

  /** From before to after, only vertices reachable from start were visited; each of them has only
      visited neighbours afterwards, except possibly `open`. */
  ghost predicate Explored(edges: seq<EdgeNode>, before: seq<bool>, after: seq<bool>, start: nat, open: set<nat>) {
    && |before| == |after|
    && (forall v :: 0 <= v < |after| && after[v] ==> before[v])
    && (forall v: nat :: v < |after| && before[v] && !after[v] ==> Reachable(edges, start, v))
    && (forall u: nat, v: nat :: u < |after| && before[u] && !after[u] && u !in open && Adjacent(edges, u, v) ==>
          v < |after| && !after[v])
  }

  /** A search from a neighbour adds to what has been explored so far. */
  lemma ExploredMore(edges: seq<EdgeNode>, a: seq<bool>, b: seq<bool>, c: seq<bool>, start: nat, next: nat)
    requires Explored(edges, a, b, start, {start}) && Explored(edges, b, c, next, {})
    requires Reachable(edges, start, next) && start < |a| && !b[start]
    ensures Explored(edges, a, c, start, {start})
  {
    hide Reachable;
    hide Adjacent;
    forall v: nat | v < |c| && a[v] && !c[v] ensures Reachable(edges, start, v) {
      if b[v] { ReachableJoin(edges, start, next, v); }
    }
  }

  /** With all edges at start followed, or nothing left to visit, start itself is closed too. */
  lemma ExploredAll(edges: seq<EdgeNode>, a: seq<bool>, c: seq<bool>, start: nat, p: int)
    requires Explored(edges, a, c, start, {start}) && start < |a| && -1 <= p < |edges|
    requires forall i :: 0 <= i < |edges| ==> 1 <= OtherEnd(edges[i], start) < |a|
    requires forall i :: 0 <= i < |edges| && Incident(edges[i], start) && i > p ==> !c[OtherEnd(edges[i], start)]
    requires p == -1 || !AnyLeftOf(c)
    ensures Explored(edges, a, c, start, {})
  {
  }

  class Graph {
    const edges: seq<EdgeNode>
    const first: seq<int>

    ghost predicate Valid()
    {
      Multilist(edges, first) && |first| >= 2
    }

    /** read, for the endpoints of the edges in the order of the input; vertices are numbered from 1. */
    constructor (numVertices: nat, endpoints: seq<(nat, nat)>)
      requires numVertices >= 1
      requires forall i :: 0 <= i < |endpoints| ==>
                 1 <= endpoints[i].0 <= numVertices && 1 <= endpoints[i].1 <= numVertices
      ensures Valid() && |first| == numVertices + 1 && |edges| == |endpoints|
      ensures forall i :: 0 <= i < |edges| ==> edges[i].vertex1 == endpoints[i].0 && edges[i].vertex2 == endpoints[i].1
    {
      var heads: seq<int> := seq(numVertices + 1, _ => -1);
      var list: seq<EdgeNode> := [];
      for n := 0 to |endpoints|
        invariant |heads| == numVertices + 1 && |list| == n && Multilist(list, heads)
        invariant forall i :: 0 <= i < n ==> list[i].vertex1 == endpoints[i].0 && list[i].vertex2 == endpoints[i].1
      {
        ghost var before, was := list, heads;
        var newPtr := n;
        var (a, b) := endpoints[n];
        var link1 := heads[a];
        heads := heads[a := newPtr];
        var link2 := heads[b];
        heads := heads[b := newPtr];
        list := list + [EdgeNode(a, b, link1, link2)];
        EdgeAdded(before, was, a, b, list, heads);
      }
      edges, first := list, heads;
    }

    /** depthFirstSearch: visits what is reachable from start through unvisited vertices, and may stop
        early only when no vertex is left. */
    method DepthFirstSearch(start: nat, unvisited: array<bool>)
      requires Valid() && unvisited.Length == |first| && 1 <= start < |first| && unvisited[start]
      modifies unvisited
      ensures !unvisited[start] && Explored(edges, old(unvisited[..]), unvisited[..], start, {})
      decreases Left(unvisited[..])
    {
      hide Reachable;
      hide Left;
      hide Adjacent;
      hide Explored;
      hide AnyLeftOf;
      hide Multilist;
      ghost var before := unvisited[..];
      unvisited[start] := false;
      StartExplored(edges, before, start);
      var ptr := first[start];
      MultilistHead(edges, first, start);
      while true
        invariant |before| == unvisited.Length
        invariant -1 <= ptr < |edges| && (ptr >= 0 ==> Incident(edges[ptr], start))
        invariant !unvisited[start] && Explored(edges, before, unvisited[..], start, {start})
        invariant forall i :: 0 <= i < |edges| && Incident(edges[i], start) && i > ptr ==>
                    !unvisited[OtherEnd(edges[i], start)]
        invariant Left(unvisited[..]) < Left(before)
        decreases ptr
      {
        var more := AnyLeft(unvisited);
        if !more || ptr == -1 {
          break;
        }
        var newStart := OtherEnd(edges[ptr], start);
        ghost var mid := unvisited[..];
        NextIsReachable(edges, start, ptr);
        MultilistLink(edges, first, start, ptr);
        if unvisited[newStart] {
          DepthFirstSearch(newStart, unvisited);
          ExploredShrinks(edges, mid, unvisited[..], newStart);
          ExploredMore(edges, before, mid, unvisited[..], start, newStart);
        }
        ptr := OwnLink(edges[ptr], start);
      }
      ExploredAll(edges, before, unvisited[..], start, ptr);
    }

    /** isConnected is true exactly when every vertex can be reached from vertex 1. */
    method IsConnected() returns (r: bool)
      requires Valid()
      ensures r <==> forall v: nat :: 1 <= v < |first| ==> Reachable(edges, 1, v)
    {
      hide Reachable;
      var unvisited := new bool[|first|](_ => true);
      ghost var before := unvisited[..];
      DepthFirstSearch(1, unvisited);
      var left := AnyLeft(unvisited);
      VisitedIsReachable(edges, before, unvisited[..]);
      r := !left;
    }
  }

  lemma VisitedIsReachable(edges: seq<EdgeNode>, before: seq<bool>, after: seq<bool>)
    requires |after| >= 2 && !after[1] && forall v :: 0 <= v < |before| ==> before[v]
    requires Explored(edges, before, after, 1, {})
    ensures !AnyLeftOf(after) <==> forall v: nat :: 1 <= v < |after| ==> Reachable(edges, 1, v)
  {
    hide Adjacent;
    assert ClosedUnder(edges, after);
    forall v: nat | v < |after| && Reachable(edges, 1, v) ensures !after[v] {
      hide ClosedUnder;
      var w: seq<nat> :| Walk(edges, w) && w[0] == 1 && w[|w| - 1] == v;
      ClosedHoldsWalk(edges, after, w, |w| - 1);
    }
  }

  lemma StartExplored(edges: seq<EdgeNode>, before: seq<bool>, start: nat)
    requires start < |before| && before[start]
    ensures Explored(edges, before, before[start := false], start, {start})
    ensures Left(before[start := false]) < Left(before)
  {
    hide Reachable;
    hide Left;
    ReachableSelf(edges, start);
    ClearingLeavesFewer(before, start);
  }

  lemma ExploredShrinks(edges: seq<EdgeNode>, a: seq<bool>, b: seq<bool>, start: nat)
    requires Explored(edges, a, b, start, {})
    ensures |a| == |b| && Left(b) <= Left(a) && forall v :: 0 <= v < |b| && b[v] ==> a[v]
  {
    hide Left;
  }

  lemma NextIsReachable(edges: seq<EdgeNode>, start: nat, p: int)
    requires 0 <= p < |edges| && Incident(edges[p], start)
    ensures Reachable(edges, start, OtherEnd(edges[p], start))
  {
    ReachableSelf(edges, start);
    assert Adjacent(edges, start, OtherEnd(edges[p], start));
    ReachableStep(edges, start, start, OtherEnd(edges[p], start));
  }

  lemma MultilistHead(edges: seq<EdgeNode>, first: seq<int>, v: nat)
    requires Multilist(edges, first) && v < |first|
    ensures first[v] == Prev(edges, v, |edges|)
    ensures forall i :: 0 <= i < |edges| ==> 1 <= OtherEnd(edges[i], v) < |first|
  {
  }

  lemma MultilistLink(edges: seq<EdgeNode>, first: seq<int>, v: nat, p: int)
    requires Multilist(edges, first) && 0 <= p < |edges| && Incident(edges[p], v)
    ensures OwnLink(edges[p], v) == Prev(edges, v, p)
    ensures 1 <= OtherEnd(edges[p], v) < |first|
  {
  }

  lemma {:induction false} PrevOfExtension(edges: seq<EdgeNode>, e: EdgeNode, v: nat, i: nat)
    requires i <= |edges|
    ensures Prev(edges + [e], v, i) == Prev(edges, v, i)
    decreases i
  {
    if i > 0 { PrevOfExtension(edges, e, v, i - 1); }
  }

  /** Linking a new edge node in front of the chains of both its endpoints keeps the multilist. */
  lemma EdgeAdded(edges: seq<EdgeNode>, first: seq<int>, a: nat, b: nat, edges': seq<EdgeNode>, first': seq<int>)
    requires Multilist(edges, first) && 1 <= a < |first| && 1 <= b < |first|
    requires first' == first[a := |edges|][b := |edges|]
    requires edges' == edges + [EdgeNode(a, b, first[a], first[a := |edges|][b])]
    ensures Multilist(edges', first')
  {
    var n := |edges|;
    var e := edges'[n];
    forall i, v: nat | 0 <= i < |edges'| && Incident(edges'[i], v) ensures OwnLink(edges'[i], v) == Prev(edges', v, i) {
      PrevOfExtension(edges, e, v, i);
      if i < n { assert edges'[i] == edges[i]; }
    }
    forall v: nat | v < |first'| ensures first'[v] == Prev(edges', v, |edges'|) {
      PrevOfExtension(edges, e, v, n);
    }
  }
}
