/**
 Directed graphs as adjacency lists: breadth-first shortest paths with one running distance counter.
 */
module Digraph {
  import opened Unvisited

  type Graph = seq<seq<nat>>

  /** Adjacency lists mention only vertices of the graph. */
  predicate WellFormed(adj: Graph) {
    forall u, i :: 0 <= u < |adj| && 0 <= i < |adj[u]| ==> adj[u][i] < |adj|
  }

  ghost predicate Edge(adj: Graph, u: nat, v: nat) {
    u < |adj| && v in adj[u]
  }

  /** A walk along edges, listed vertex by vertex. */
  ghost predicate Walk(adj: Graph, w: seq<nat>) {
    && |w| >= 1 && w[0] < |adj|
    && forall i {:trigger w[i]} :: 0 <= i && i + 1 < |w| ==> Edge(adj, w[i], w[i + 1])
  }

  ghost predicate WalkFromTo(adj: Graph, w: seq<nat>, start: nat, end: nat) {
    Walk(adj, w) && w[0] == start && w[|w| - 1] == end
  }

  ghost predicate Reachable(adj: Graph, start: nat, end: nat) {
    exists w: seq<nat> :: WalkFromTo(adj, w, start, end)
  }

  /** No walk between the ends has fewer edges. */
  ghost predicate Shortest(adj: Graph, w: seq<nat>, start: nat, end: nat) {
    WalkFromTo(adj, w, start, end) && forall u: seq<nat> :: WalkFromTo(adj, u, start, end) ==> |w| <= |u|
  }

  /** The vertex farthest from the start is e edges away. */
  ghost predicate Eccentricity(adj: Graph, start: nat, e: nat) {
    && (forall v: nat :: Reachable(adj, start, v) ==>
          exists w: seq<nat> :: WalkFromTo(adj, w, start, v) && |w| <= e + 1)
    && (exists v: nat, w: seq<nat> :: Shortest(adj, w, start, v) && |w| == e + 1)
  }

  /** From a vertex to itself the one-element walk is the shortest. */
  lemma StayingIsShortest(adj: Graph, start: nat)
    requires start < |adj|
    ensures Reachable(adj, start, start)
    ensures forall w: seq<nat> :: |w| >= 2 ==> !Shortest(adj, w, start, start)
  {
    var stay: seq<nat> := [start];
    assert WalkFromTo(adj, stay, start, start);
  }

  // ---------------------------------------------------------------- the state of the search

  /** Labels, predecessors, the queue, the vertices already expanded and the running counter. */
  datatype Search = Search(dist: seq<int>, pred: seq<nat>, queue: seq<nat>, done: set<nat>, distance: int)

  ghost predicate Shape(adj: Graph, start: nat, s: Search) {
    && |s.dist| == |s.pred| == |adj| && start < |adj|
    && s.dist[start] == 0 && s.distance >= 0
    && (forall i :: 0 <= i < |s.queue| ==> s.queue[i] < |adj| && s.queue[i] !in s.done)
    && (forall i, j :: 0 <= i < j < |s.queue| ==> s.queue[i] != s.queue[j])
    && (forall v :: v in s.done ==> v < |adj|)
  }

  /** Queue labels do not decrease and exceed the counter by one at most. */
  ghost predicate QueueOrdered(s: Search)
    requires forall i :: 0 <= i < |s.queue| ==> s.queue[i] < |s.dist|
  {
    && (forall i :: 0 <= i < |s.queue| ==> s.distance <= s.dist[s.queue[i]] <= s.distance + 1)
    && (forall i, j :: 0 <= i < j < |s.queue| ==> s.dist[s.queue[i]] <= s.dist[s.queue[j]])
  }

  /** Every labelled vertex but the start hangs below an expanded predecessor, one label lower. */
  ghost predicate Tree(adj: Graph, start: nat, s: Search, current: set<nat>)
    requires |s.dist| == |s.pred| == |adj|
  {
    forall v: nat :: v < |adj| && s.dist[v] >= 0 && v != start ==>
      && s.pred[v] < |adj| && s.dist[s.pred[v]] >= 0 && Edge(adj, s.pred[v], v)
      && s.dist[v] == s.dist[s.pred[v]] + 1
      && s.pred[v] in s.done + current
  }

  /** Labelled vertices are the expanded ones, the queue, and the one being expanded. */
  ghost predicate Labelled(adj: Graph, s: Search, current: set<nat>)
    requires |s.dist| == |adj|
  {
    forall v: nat :: v < |adj| ==> (s.dist[v] >= 0 <==> v in s.done || v in s.queue || v in current)
  }

  /** Expanded vertices have labelled successors, at most one label higher, and labels up to the counter. */
  ghost predicate Closed(adj: Graph, s: Search)
    requires |s.dist| == |adj|
  {
    forall u, v: nat :: u in s.done && Edge(adj, u, v) && v < |adj| ==> 0 <= s.dist[v] <= s.dist[u] + 1
  }

  ghost predicate Inv(adj: Graph, start: nat, s: Search, current: set<nat>) {
    Shape(adj, start, s) && QueueOrdered(s) && Tree(adj, start, s, current) && Labelled(adj, s, current)
      && Closed(adj, s)
  }

  // ---------------------------------------------------------------- why labels are distances

  /** A vertex whose label is below the counter is expanded, so its successors are labelled. */
  lemma LabelStep(adj: Graph, start: nat, s: Search, u: nat, v: nat)
    requires WellFormed(adj) && Inv(adj, start, s, {}) && u < |adj| && 0 <= s.dist[u] < s.distance && Edge(adj, u, v)
    ensures v < |adj| && 0 <= s.dist[v] <= s.dist[u] + 1
  {
  }

  /** Along any walk from the start the labels grow by at most one per edge, as long as the vertices
      passed are too close to be in the queue. */
  lemma {:induction false} LabelsAlongWalk(adj: Graph, start: nat, s: Search, w: seq<nat>, i: nat)
    requires WellFormed(adj) && Inv(adj, start, s, {}) && Walk(adj, w) && w[0] == start
    requires i < |w| && i <= s.distance
    ensures w[i] < |adj| == |s.dist| && 0 <= s.dist[w[i]] <= i
    decreases i
  {
    if i == 0 {
      assert s.dist[start] == 0;
    } else {
      hide Inv;
      hide Edge;
      LabelsAlongWalk(adj, start, s, w, i - 1);
      assert Edge(adj, w[i - 1], w[i - 1 + 1]);
      LabelStep(adj, start, s, w[i - 1], w[i]);
    }
  }

  /** The label distance+1 of the destination is its distance from the start. */
  lemma LabelIsDistance(adj: Graph, start: nat, s: Search, dest: nat, w: seq<nat>)
    requires WellFormed(adj) && Inv(adj, start, s, {}) && WalkFromTo(adj, w, start, dest)
    requires dest < |adj| && s.dist[dest] == s.distance + 1
    ensures |w| - 1 >= s.distance + 1
  {
    if |w| - 1 <= s.distance {
      LabelsAlongWalk(adj, start, s, w, |w| - 1);
    }
  }

  /** With an empty queue exactly the reachable vertices are labelled. */
  lemma {:induction false} EmptyQueueReaches(adj: Graph, start: nat, s: Search, w: seq<nat>, i: nat)
    requires WellFormed(adj) && Inv(adj, start, s, {}) && s.queue == [] && Walk(adj, w) && w[0] == start && i < |w|
    ensures w[i] < |adj| && s.dist[w[i]] >= 0
    decreases i
  {
    hide Tree;
    hide QueueOrdered;
    if i > 0 {
      EmptyQueueReaches(adj, start, s, w, i - 1);
      assert Edge(adj, w[i - 1], w[i]);
      var k :| 0 <= k < |adj[w[i - 1]]| && adj[w[i - 1]][k] == w[i];
    }
  }

  /** A label is the length of a walk along the predecessors. */
  lemma {:induction false} LabelHasWalk(adj: Graph, start: nat, s: Search, v: nat) returns (w: seq<nat>)
    requires Inv(adj, start, s, {}) && v < |adj| && s.dist[v] >= 0
    ensures WalkFromTo(adj, w, start, v) && |w| == s.dist[v] + 1
    decreases s.dist[v]
  {
    if v == start {
      w := [start];
    } else {
      var u := s.pred[v];
      var before := LabelHasWalk(adj, start, s, u);
      w := before + [v];
      forall i | 0 <= i && i + 1 < |w| ensures Edge(adj, w[i], w[i + 1]) {
        if i + 1 < |before| { assert Edge(adj, before[i], before[i + 1]); }
      }
    }
  }

  /** With an empty queue the counter is the distance of the farthest vertex. */
  lemma CounterIsEccentricity(adj: Graph, start: nat, s: Search, last: nat)
    requires WellFormed(adj) && Inv(adj, start, s, {}) && s.queue == [] && DoneBelow(adj, s)
    requires last < |adj| && s.dist[last] == s.distance
    ensures s.distance >= 0 && Eccentricity(adj, start, s.distance)
  {
    hide Tree;
    hide Closed;
    forall v: nat | Reachable(adj, start, v)
      ensures exists w: seq<nat> :: WalkFromTo(adj, w, start, v) && |w| <= s.distance + 1
    {
      var u: seq<nat> :| WalkFromTo(adj, u, start, v);
      EmptyQueueReaches(adj, start, s, u, |u| - 1);
      var w := LabelHasWalk(adj, start, s, v);
    }
    var w := LabelHasWalk(adj, start, s, last);
    forall u: seq<nat> | WalkFromTo(adj, u, start, last) ensures |w| <= |u| {
      if |u| - 1 < s.distance { LabelsAlongWalk(adj, start, s, u, |u| - 1); }
    }
    assert Shortest(adj, w, start, last);
  }

  // ---------------------------------------------------------------- steps of the search

  /** Taking the front vertex off the queue and adjusting the counter. */
  function Popped(s: Search): (r: Search)
    requires s.queue != [] && s.queue[0] < |s.dist|
  {
    s.(queue := s.queue[1..], distance := if s.dist[s.queue[0]] > s.distance then s.distance + 1 else s.distance)
  }

  lemma PopOrder(adj: Graph, start: nat, s: Search)
    requires Shape(adj, start, s) && QueueOrdered(s) && s.queue != []
    ensures Shape(adj, start, Popped(s)) && QueueOrdered(Popped(s))
    ensures Popped(s).distance == s.dist[s.queue[0]] && s.queue[0] !in s.done && s.queue[0] !in Popped(s).queue
  {
  }

  lemma PopLabels(adj: Graph, start: nat, s: Search, v: nat)
    requires |s.dist| == |s.pred| == |adj| && s.queue != [] && v == s.queue[0] < |adj|
    requires Tree(adj, start, s, {}) && Labelled(adj, s, {}) && Closed(adj, s)
    ensures Tree(adj, start, Popped(s), {v}) && Labelled(adj, Popped(s), {v}) && Closed(adj, Popped(s))
  {
  }

  lemma PopKeeps(adj: Graph, start: nat, s: Search)
    requires Inv(adj, start, s, {}) && s.queue != []
    ensures Inv(adj, start, Popped(s), {s.queue[0]})
    ensures Popped(s).distance == s.dist[s.queue[0]] && s.queue[0] !in s.done && s.queue[0] !in Popped(s).queue
  {
    hide Tree;
    hide Labelled;
    hide Closed;
    hide QueueOrdered;
    PopOrder(adj, start, s);
    PopLabels(adj, start, s, s.queue[0]);
  }

  /** Labelling a fresh successor. */
  function Pushed(s: Search, vertex: nat, next: nat): (r: Search)
    requires next < |s.dist| == |s.pred|
  {
    s.(dist := s.dist[next := s.distance + 1], pred := s.pred[next := vertex], queue := s.queue + [next])
  }

  lemma PushOrder(adj: Graph, start: nat, s: Search, vertex: nat, next: nat)
    requires Shape(adj, start, s) && QueueOrdered(s) && next < |adj| && s.dist[next] < 0
    requires forall x: nat :: x in s.queue && x < |adj| ==> s.dist[x] >= 0
    requires next !in s.done
    ensures Shape(adj, start, Pushed(s, vertex, next)) && QueueOrdered(Pushed(s, vertex, next))
  {
    var t := Pushed(s, vertex, next);
    forall i | 0 <= i < |s.queue|
      ensures t.queue[i] == s.queue[i] && s.queue[i] != next && t.dist[s.queue[i]] == s.dist[s.queue[i]]
    {
      assert s.queue[i] in s.queue;
    }
  }

  lemma PushTree(adj: Graph, start: nat, s: Search, vertex: nat, next: nat)
    requires |s.dist| == |s.pred| == |adj| && Tree(adj, start, s, {vertex}) && next < |adj| && vertex < |adj|
    requires s.dist[next] < 0 && Edge(adj, vertex, next) && s.distance == s.dist[vertex] >= 0
    ensures Tree(adj, start, Pushed(s, vertex, next), {vertex})
  {
  }

  lemma PushLabels(adj: Graph, s: Search, vertex: nat, next: nat)
    requires |s.dist| == |s.pred| == |adj| && next < |adj| && s.distance >= 0
    requires Labelled(adj, s, {vertex}) && Closed(adj, s) && s.dist[next] < 0
    requires forall v :: v in s.done ==> v < |adj|
    ensures Labelled(adj, Pushed(s, vertex, next), {vertex}) && Closed(adj, Pushed(s, vertex, next))
  {
  }

  lemma PushKeeps(adj: Graph, start: nat, s: Search, vertex: nat, next: nat)
    requires WellFormed(adj) && Inv(adj, start, s, {vertex}) && next < |adj| && vertex < |adj|
    requires s.dist[next] < 0 && Edge(adj, vertex, next) && s.distance == s.dist[vertex] && vertex !in s.done
    ensures Inv(adj, start, Pushed(s, vertex, next), {vertex})
  {
    hide Tree;
    hide Closed;
    hide QueueOrdered;
    PushOrder(adj, start, s, vertex, next);
    PushTree(adj, start, s, vertex, next);
    PushLabels(adj, s, vertex, next);
  }

  /** All successors of the vertex have been seen: it is expanded. */
  lemma FinishKeeps(adj: Graph, start: nat, s: Search, vertex: nat)
    requires WellFormed(adj) && Inv(adj, start, s, {vertex}) && vertex < |adj| && vertex !in s.queue
             && vertex !in s.done
    requires s.distance == s.dist[vertex]
    requires forall i :: 0 <= i < |adj[vertex]| ==> 0 <= s.dist[adj[vertex][i]] <= s.distance + 1
    ensures Inv(adj, start, s.(done := s.done + {vertex}), {})
  {
    var t := s.(done := s.done + {vertex});
    forall u, v: nat | u in t.done && Edge(adj, u, v) && v < |adj| ensures 0 <= t.dist[v] <= t.dist[u] + 1 {
      if u == vertex {
        var i :| 0 <= i < |adj[vertex]| && adj[vertex][i] == v;
      }
    }
  }

  /** Mid-expansion: labels of seen successors stay within one of the counter. */
  lemma LabelsBounded(adj: Graph, start: nat, s: Search, vertex: nat, v: nat)
    requires Inv(adj, start, s, {vertex}) && vertex < |adj| && v < |adj| && s.dist[v] >= 0
    requires s.distance == s.dist[vertex] && DoneBelow(adj, s)
    ensures s.dist[v] <= s.distance + 1
  {
  }

  /** Expanded vertices have labels up to the counter. */
  ghost predicate DoneBelow(adj: Graph, s: Search)
    requires |s.dist| == |adj|
  {
    forall v: nat :: v in s.done && v < |adj| ==> s.dist[v] <= s.distance
  }

  // ---------------------------------------------------------------- shortestPath

  /** The for loop over the successors of a vertex. */
  method Expand(adj: Graph, ghost start: nat, vertex: nat, distLabel: array<int>, predLabel: array<nat>,
                distance: int, queue: seq<nat>, ghost done: set<nat>) returns (q: seq<nat>)
    requires WellFormed(adj) && vertex < |adj| && distLabel.Length == predLabel.Length == |adj|
    requires Inv(adj, start, Search(distLabel[..], predLabel[..], queue, done, distance), {vertex})
    requires 0 <= distance == distLabel[vertex] && vertex !in done && vertex !in queue
    requires DoneBelow(adj, Search(distLabel[..], predLabel[..], queue, done, distance))
    modifies distLabel, predLabel
    ensures Inv(adj, start, Search(distLabel[..], predLabel[..], q, done + {vertex}, distance), {})
    ensures DoneBelow(adj, Search(distLabel[..], predLabel[..], q, done + {vertex}, distance))
    ensures forall v :: 0 <= v < |adj| ==>
              distLabel[v] == old(distLabel[v]) || (old(distLabel[v]) < 0 && distLabel[v] == distance + 1)
  {
    hide Inv;
    q := queue;
    for i := 0 to |adj[vertex]|
      invariant Inv(adj, start, Search(distLabel[..], predLabel[..], q, done, distance), {vertex})
      invariant DoneBelow(adj, Search(distLabel[..], predLabel[..], q, done, distance))
      invariant vertex !in q && distLabel[vertex] == distance
      invariant forall k :: 0 <= k < i ==> 0 <= distLabel[adj[vertex][k]] <= distance + 1
      invariant forall v :: 0 <= v < |adj| ==>
                  distLabel[v] == old(distLabel[v]) || (old(distLabel[v]) < 0 && distLabel[v] == distance + 1)
    {
      var next := adj[vertex][i];
      ghost var s := Search(distLabel[..], predLabel[..], q, done, distance);
      if distLabel[next] < 0 {
        PushKeeps(adj, start, s, vertex, next);
        ExpandedUnlabelled(adj, start, s, vertex, next);
        distLabel[next] := distance + 1;
        predLabel[next] := vertex;
        q := q + [next];
        assert Pushed(s, vertex, next) == Search(distLabel[..], predLabel[..], q, done, distance);
      } else {
        LabelsBounded(adj, start, s, vertex, next);
      }
    }
    FinishKeeps(adj, start, Search(distLabel[..], predLabel[..], q, done, distance), vertex);
  }

  lemma ExpandedUnlabelled(adj: Graph, start: nat, s: Search, vertex: nat, next: nat)
    requires Inv(adj, start, s, {vertex}) && next < |adj| && s.dist[next] < 0 && vertex < |adj|
    ensures next != vertex && next !in s.done
  {
  }

  /** The walk the predecessor labels describe, read backwards from the destination. */
  method TraceBack(adj: Graph, ghost start: nat, destination: nat, ghost s: Search, predLabel: array<nat>,
                distance: nat)
    returns (path: array<nat>)
    requires Inv(adj, start, s, {}) && destination < |adj| && predLabel[..] == s.pred
    requires s.dist[destination] == distance
    ensures fresh(path) && path.Length == distance + 1 && WalkFromTo(adj, path[..], start, destination)
  {
    path := new nat[distance + 1](_ => 0);
    path[distance] := destination;
    var k := distance;
    while k > 0
      invariant 0 <= k <= distance && path[distance] == destination
      invariant TracedFrom(adj, s, path[..], k)
    {
      k := k - 1;
      TraceStep(adj, start, s, path[..], k);
      path[k] := predLabel[path[k + 1]];
    }
    assert path[..][0] == start;
  }

  /** From index k on the path is labelled by its indices and follows edges. */
  ghost predicate TracedFrom(adj: Graph, s: Search, path: seq<nat>, k: nat)
    requires |s.dist| == |adj|
  {
    && (forall i :: k <= i < |path| ==> path[i] < |adj| && s.dist[path[i]] == i)
    && (forall i {:trigger path[i]} :: k <= i && i + 1 < |path| ==> Edge(adj, path[i], path[i + 1]))
  }

  lemma TraceStep(adj: Graph, start: nat, s: Search, path: seq<nat>, k: nat)
    requires Inv(adj, start, s, {}) && k + 1 < |path| && TracedFrom(adj, s, path, k + 1)
    ensures path[k + 1] < |adj| && TracedFrom(adj, s, path[k := s.pred[path[k + 1]]], k)
  {
  }

  /** What shortestPath returns: a shortest walk exactly when there is one and the ends differ. For equal
      ends the loop never runs, the counter is advanced all the same, and the answer is the two-element list
      [0, start]. For an unreachable destination it is a list of zeros, two longer than the distance of the
      farthest vertex. */
  method ShortestPath(adj: Graph, start: nat, destination: nat) returns (path: array<nat>)
    requires WellFormed(adj) && start < |adj| && destination < |adj|
    ensures Reachable(adj, start, destination) ==>
              (Shortest(adj, path[..], start, destination) <==> start != destination)
    ensures !Reachable(adj, start, destination) ==>
              && (forall i :: 0 <= i < path.Length ==> path[i] == 0)
              && path.Length >= 2 && Eccentricity(adj, start, path.Length - 2)
    ensures start == destination ==> path[..] == [0, start]
  {
    hide Inv;
    hide DoneBelow;
    hide Shortest;
    hide Reachable;
    hide Eccentricity;
    hide WalkFromTo;
    hide WellFormed;
    var n := |adj|;
    var distLabel := new int[n](_ => -1);
    var predLabel := new nat[n](_ => 0);
    distLabel[start] := 0;
    var distance := 0;
    var vertexQueue: seq<nat> := [start];
    ghost var done: set<nat> := {};
    ghost var all: set<nat> := Vertices(n);
    ghost var last := start;
    StartInv(adj, start, Search(distLabel[..], predLabel[..], vertexQueue, done, distance));
    while distLabel[destination] < 0 && vertexQueue != []
      invariant Inv(adj, start, Search(distLabel[..], predLabel[..], vertexQueue, done, distance), {})
      invariant DoneBelow(adj, Search(distLabel[..], predLabel[..], vertexQueue, done, distance))
      invariant start != destination ==> distLabel[destination] < 0 || distLabel[destination] == distance + 1
      invariant start == destination ==> distLabel[destination] == 0 && distance == 0 && predLabel[start] == 0
      invariant distance >= 0 && done <= all && last < n && distLabel[last] == distance
      decreases all - done
    {
      ghost var s := Search(distLabel[..], predLabel[..], vertexQueue, done, distance);
      FrontInRange(adj, start, s);
      PopKeeps(adj, start, s);
      var vertex := vertexQueue[0];
      vertexQueue := vertexQueue[1..];
      if distLabel[vertex] > distance {
        distance := distance + 1;
      }
      assert Search(distLabel[..], predLabel[..], vertexQueue, done, distance) == Popped(s);
      DoneStaysBelow(adj, s, Popped(s));
      vertexQueue := Expand(adj, start, vertex, distLabel, predLabel, distance, vertexQueue, done);
      assert vertex in all - done;
      done := done + {vertex};
      last := vertex;
    }
    ghost var s := Search(distLabel[..], predLabel[..], vertexQueue, done, distance);
    distance := distance + 1;
    if distLabel[destination] < 0 {
      path := new nat[distance + 1](_ => 0);
      Unreached(adj, start, s, destination);
      CounterIsEccentricity(adj, start, s, last);
    } else if start == destination {
      StayingIsShortest(adj, start);
      path := new nat[distance + 1](_ => 0);
      path[distance] := destination;
      path[0] := predLabel[path[1]];
    } else {
      path := TraceBack(adj, start, destination, s, predLabel, distance);
      Reached(adj, start, s, destination, path[..]);
    }
  }

  ghost function Vertices(n: nat): (r: set<nat>)
    ensures forall v: nat :: v in r <==> v < n
  {
    if n == 0 then {} else Vertices(n - 1) + {n - 1}
  }

  lemma StartInv(adj: Graph, start: nat, s: Search)
    requires start < |adj| && |s.dist| == |s.pred| == |adj| && s.queue == [start] && s.done == {} && s.distance == 0
    requires forall v :: 0 <= v < |adj| ==> s.dist[v] == if v == start then 0 else -1
    ensures Inv(adj, start, s, {}) && DoneBelow(adj, s)
  {
  }

  lemma FrontInRange(adj: Graph, start: nat, s: Search)
    requires Inv(adj, start, s, {}) && s.queue != []
    ensures s.queue[0] < |s.dist| == |adj|
  {
  }

  lemma DoneStaysBelow(adj: Graph, s: Search, t: Search)
    requires |s.dist| == |adj| && DoneBelow(adj, s) && t.dist == s.dist && t.done == s.done && t.distance >= s.distance
    ensures DoneBelow(adj, t)
  {
  }

  lemma Unreached(adj: Graph, start: nat, s: Search, destination: nat)
    requires WellFormed(adj) && Inv(adj, start, s, {}) && s.queue == [] && destination < |adj|
             && s.dist[destination] < 0
    ensures !Reachable(adj, start, destination)
  {
    forall w: seq<nat> | Walk(adj, w) && w[0] == start ensures w[|w| - 1] != destination {
      EmptyQueueReaches(adj, start, s, w, |w| - 1);
    }
  }

  lemma Reached(adj: Graph, start: nat, s: Search, destination: nat, path: seq<nat>)
    requires WellFormed(adj) && Inv(adj, start, s, {}) && destination < |adj| && s.dist[destination] == s.distance + 1
    requires WalkFromTo(adj, path, start, destination) && |path| == s.distance + 2
    ensures Reachable(adj, start, destination) && Shortest(adj, path, start, destination)
  {
    forall u: seq<nat> | WalkFromTo(adj, u, start, destination) ensures |path| <= |u| {
      LabelIsDistance(adj, start, s, destination, u);
    }
  }

  // ---------------------------------------------------------------- depthFirstSearchAux

  lemma ReachableEdge(adj: Graph, start: nat, u: nat, v: nat)
    requires Reachable(adj, start, u) && Edge(adj, u, v)
    ensures Reachable(adj, start, v)
  {
    var w: seq<nat> :| WalkFromTo(adj, w, start, u);
    var w' := w + [v];
    forall i | 0 <= i && i + 1 < |w'| ensures Edge(adj, w'[i], w'[i + 1]) {
      if i + 1 < |w| { assert Edge(adj, w[i], w[i + 1]); }
    }
    assert WalkFromTo(adj, w', start, v);
  }

  lemma {:induction false} ReachableAlong(adj: Graph, start: nat, w: seq<nat>, i: nat)
    requires Walk(adj, w) && i < |w| && Reachable(adj, start, w[0])
    ensures Reachable(adj, start, w[i])
    decreases i
  {
    if i > 0 {
      ReachableAlong(adj, start, w, i - 1);
      assert Edge(adj, w[i - 1], w[i - 1 + 1]);
      ReachableEdge(adj, start, w[i - 1], w[i]);
    }
  }

  lemma ReachableJoin(adj: Graph, a: nat, b: nat, v: nat)
    requires Reachable(adj, a, b) && Reachable(adj, b, v)
    ensures Reachable(adj, a, v)
  {
    var w: seq<nat> :| WalkFromTo(adj, w, b, v);
    ReachableAlong(adj, a, w, |w| - 1);
  }

  /** The search printed exactly the vertices it cleared, each once and all reachable; their
      successors are visited too, except possibly those of the vertices still open. */
  ghost predicate Explored(adj: Graph, before: seq<bool>, after: seq<bool>, start: nat, open: set<nat>,
                printed: seq<nat>) {
    && |before| == |after| == |adj|
    && (forall v: nat :: v < |adj| ==> (v in printed <==> before[v] && !after[v]))
    && (forall v :: 0 <= v < |adj| && after[v] ==> before[v])
    && (forall i :: 0 <= i < |printed| ==> printed[i] < |adj| && Reachable(adj, start, printed[i]))
    && (forall i, j :: 0 <= i < j < |printed| ==> printed[i] != printed[j])
    && (forall u: nat, v: nat :: u in printed && u !in open && Edge(adj, u, v) ==> v < |adj| && !after[v])
  }

  lemma ExploredStart(adj: Graph, before: seq<bool>, start: nat)
    requires start < |adj| == |before| && before[start]
    ensures Explored(adj, before, before[start := false], start, {start}, [start])
    ensures Left(before[start := false]) < Left(before)
  {
    hide Left;
    assert WalkFromTo(adj, [start], start, start);
    ClearingLeavesFewer(before, start);
  }

  lemma ExploredMore(adj: Graph, a: seq<bool>, b: seq<bool>, c: seq<bool>, start: nat, next: nat, p: seq<nat>,
                q: seq<nat>)
    requires Explored(adj, a, b, start, {start}, p) && Explored(adj, b, c, next, {}, q)
    requires start in p && Edge(adj, start, next)
    ensures Explored(adj, a, c, start, {start}, p + q)
  {
    hide Reachable;
    hide Edge;
    var i :| 0 <= i < |p| && p[i] == start;
    ReachableEdge(adj, start, start, next);
    forall j | 0 <= j < |q| ensures Reachable(adj, start, q[j]) && q[j] !in p && q[j] < |adj| {
      ReachableJoin(adj, start, next, q[j]);
      assert q[j] in q;
    }
    forall v: nat | v < |adj| ensures v in p + q <==> a[v] && !c[v] {
      assert v in p + q <==> v in p || v in q;
    }
  }

  lemma ExploredAll(adj: Graph, a: seq<bool>, c: seq<bool>, start: nat, p: seq<nat>)
    requires Explored(adj, a, c, start, {start}, p) && WellFormed(adj)
    requires start < |adj| && forall k :: 0 <= k < |adj[start]| ==> !c[adj[start][k]]
    ensures Explored(adj, a, c, start, {}, p)
  {
  }

  /** With these vertices printed, this one is still to be printed. */
  predicate Awaits(before: seq<bool>, printed: seq<nat>, v: nat) {
    v < |before| && before[v] && v !in printed
  }

  /** No vertex that v leads to by one of its first k edges is still to be printed. */
  ghost predicate Spent(adj: Graph, before: seq<bool>, printed: seq<nat>, v: nat, k: nat) {
    v < |adj| && k <= |adj[v]| && forall e :: 0 <= e < k ==> !Awaits(before, printed, adj[v][e])
  }

  /** Of the vertices printed so far, number j is the last with a successor still to be printed, and edge k
      leads to the first such successor. */
  ghost predicate Turn(adj: Graph, before: seq<bool>, printed: seq<nat>, j: nat, k: nat) {
    && j < |printed| && printed[j] < |adj| && k < |adj[printed[j]]|
    && Awaits(before, printed, adj[printed[j]][k]) && Spent(adj, before, printed, printed[j], k)
    && forall i: nat :: j < i < |printed| ==>
         printed[i] < |adj| && Spent(adj, before, printed, printed[i], |adj[printed[i]]|)
  }

  ghost predicate Follows(adj: Graph, before: seq<bool>, printed: seq<nat>, next: nat) {
    exists j: nat, k: nat :: Turn(adj, before, printed, j, k) && adj[printed[j]][k] == next
  }

  /** Depth first: after each vertex comes the first successor still to be printed of the last vertex that
      has one. */
  ghost predicate DepthFirst(adj: Graph, before: seq<bool>, printed: seq<nat>) {
    forall i :: 0 < i < |printed| ==> Follows(adj, before, printed[..i], printed[i])
  }

  lemma FollowsUnique(adj: Graph, before: seq<bool>, printed: seq<nat>, next: nat, next': nat)
    requires Follows(adj, before, printed, next) && Follows(adj, before, printed, next')
    ensures next == next'
  {
    var j: nat, k: nat :| Turn(adj, before, printed, j, k) && adj[printed[j]][k] == next;
    var j': nat, k': nat :| Turn(adj, before, printed, j', k') && adj[printed[j']][k'] == next';
    if j != j' { assert false; }
  }

  /** The graph, the unvisited vertices and the start leave no choice of the order. */
  lemma {:induction false} OrderUnique(adj: Graph, before: seq<bool>, p: seq<nat>, q: seq<nat>, n: nat)
    requires DepthFirst(adj, before, p) && DepthFirst(adj, before, q) && n <= |p| && n <= |q|
    requires p != [] && q != [] && p[0] == q[0]
    ensures p[..n] == q[..n]
    decreases n
  {
    hide Follows;
    if n > 1 {
      var i := n - 1;
      OrderUnique(adj, before, p, q, i);
      FollowsUnique(adj, before, p[..i], p[i], q[i]);
      assert p[..n] == p[..i] + [p[i]] && q[..n] == q[..i] + [q[i]];
    }
  }

  /** The search from the next unvisited successor of start goes on in depth-first order. */
  lemma DepthFirstMore(adj: Graph, a: seq<bool>, b: seq<bool>, start: nat, e: nat, p: seq<nat>, q: seq<nat>)
    requires Explored(adj, a, b, start, {start}, p) && p != [] && p[0] == start && DepthFirst(adj, a, p)
    requires start < |adj| && e < |adj[start]| && WellFormed(adj)
    requires forall k :: 0 <= k < e ==> !b[adj[start][k]]
    requires q != [] && q[0] == adj[start][e] && b[q[0]] && DepthFirst(adj, b, q)
    ensures DepthFirst(adj, a, p + q)
  {
    forall i | 0 < i < |p + q| ensures Follows(adj, a, (p + q)[..i], (p + q)[i]) {
      if i < |p| {
        assert (p + q)[..i] == p[..i];
      } else if i == |p| {
        assert (p + q)[..i] == p;
        StartTurns(adj, a, b, start, e, p);
      } else {
        assert (p + q)[..i] == p + q[..i - |p|];
        InnerTurns(adj, a, b, start, p, q[..i - |p|], q[i - |p|]);
      }
    }
  }

  lemma StartTurns(adj: Graph, a: seq<bool>, b: seq<bool>, start: nat, e: nat, p: seq<nat>)
    requires Explored(adj, a, b, start, {start}, p) && p != [] && p[0] == start
    requires start < |adj| && e < |adj[start]| && WellFormed(adj)
    requires forall k :: 0 <= k < e ==> !b[adj[start][k]]
    requires b[adj[start][e]]
    ensures Follows(adj, a, p, adj[start][e])
  {
    forall i: nat | 0 < i < |p| ensures p[i] < |adj| && Spent(adj, a, p, p[i], |adj[p[i]]|) {
      forall k | 0 <= k < |adj[p[i]]| ensures !Awaits(a, p, adj[p[i]][k]) {
        assert p[i] in p && Edge(adj, p[i], adj[p[i]][k]);
      }
    }
    assert Turn(adj, a, p, 0, e);
  }

  lemma InnerTurns(adj: Graph, a: seq<bool>, b: seq<bool>, start: nat, p: seq<nat>, q: seq<nat>, next: nat)
    requires Explored(adj, a, b, start, {start}, p) && Follows(adj, b, q, next)
    ensures Follows(adj, a, p + q, next)
  {
    var j: nat, k: nat :| Turn(adj, b, q, j, k) && adj[q[j]][k] == next;
    forall v: nat ensures Awaits(a, p + q, v) <==> Awaits(b, q, v) {
      assert v in p + q <==> v in p || v in q;
    }
    forall i: nat | |p| + j < i < |p + q|
      ensures (p + q)[i] < |adj| && Spent(adj, a, p + q, (p + q)[i], |adj[(p + q)[i]]|)
    {
      assert Spent(adj, b, q, q[i - |p|], |adj[q[i - |p|]]|);
    }
    assert Turn(adj, a, p + q, |p| + j, k);
  }

  /** Prints and clears everything that can be reached from start through unvisited vertices, depth first. */
  method DepthFirstSearchAux(adj: Graph, start: nat, unvisited: array<bool>) returns (printed: seq<nat>)
    requires WellFormed(adj) && unvisited.Length == |adj| && start < |adj| && unvisited[start]
    modifies unvisited
    ensures !unvisited[start] && Explored(adj, old(unvisited[..]), unvisited[..], start, {}, printed)
    ensures printed != [] && printed[0] == start && DepthFirst(adj, old(unvisited[..]), printed)
    decreases Left(unvisited[..])
  {
    hide Explored;
    hide Left;
    hide Follows;
    ghost var before := unvisited[..];
    printed := [start];
    unvisited[start] := false;
    ExploredStart(adj, before, start);
    for i := 0 to |adj[start]|
      invariant |before| == |adj| && !unvisited[start] && printed != [] && printed[0] == start
      invariant DepthFirst(adj, before, printed)
      invariant Explored(adj, before, unvisited[..], start, {start}, printed)
      invariant forall k :: 0 <= k < i ==> !unvisited[adj[start][k]]
      invariant Left(unvisited[..]) < Left(before)
    {
      var next := adj[start][i];
      if unvisited[next] {
        ghost var mid := unvisited[..];
        var more := DepthFirstSearchAux(adj, next, unvisited);
        DepthFirstMore(adj, before, mid, start, i, printed, more);
        ExploredMore(adj, before, mid, unvisited[..], start, next, printed, more);
        ExploredShrinks(adj, mid, unvisited[..], next, more);
        printed := printed + more;
      }
    }
    ExploredAll(adj, before, unvisited[..], start, printed);
  }

  lemma ExploredShrinks(adj: Graph, a: seq<bool>, b: seq<bool>, start: nat, p: seq<nat>)
    requires Explored(adj, a, b, start, {}, p)
    ensures |a| == |b| == |adj| && Left(b) <= Left(a) && forall v :: 0 <= v < |b| && b[v] ==> a[v]
  {
    hide Left;
  }

  lemma {:induction false} PrintedClosed(adj: Graph, before: seq<bool>, after: seq<bool>, start: nat,
                printed: seq<nat>, w: seq<nat>, i: nat)
    requires Explored(adj, before, after, start, {}, printed) && Walk(adj, w) && i < |w| && w[0] in printed
    requires forall v :: 0 <= v < |before| ==> before[v]
    ensures w[i] in printed
    decreases i
  {
    if i > 0 {
      PrintedClosed(adj, before, after, start, printed, w, i - 1);
      assert Edge(adj, w[i - 1], w[i - 1 + 1]);
    }
  }

  /** Started with every vertex unvisited, the search prints exactly the reachable vertices, each once. */
  lemma PrintsReachableOnce(adj: Graph, before: seq<bool>, after: seq<bool>, start: nat, printed: seq<nat>, v: nat)
    requires start < |adj| && Explored(adj, before, after, start, {}, printed)
    requires !after[start] && forall u :: 0 <= u < |before| ==> before[u]
    ensures v in printed <==> Reachable(adj, start, v)
    ensures forall i, j :: 0 <= i < j < |printed| ==> printed[i] != printed[j]
  {
    assert start in printed;
    if Reachable(adj, start, v) {
      var w: seq<nat> :| WalkFromTo(adj, w, start, v);
      hide Explored;
      PrintedClosed(adj, before, after, start, printed, w, |w| - 1);
    }
  }
}
