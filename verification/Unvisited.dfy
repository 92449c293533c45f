/**
 The vector of flags both depth-first searches clear; the set of flags that are left makes them terminate.
 */
module Unvisited {

  ghost function Left(unvisited: seq<bool>): (r: set<nat>)
    ensures forall v: nat :: v in r <==> v < |unvisited| && unvisited[v]
  {
    if unvisited == [] then {}
    else Left(unvisited[..|unvisited| - 1]) + (if unvisited[|unvisited| - 1] then {(|unvisited| - 1) as nat} else {})
  }

  /** Clearing a flag leaves fewer. */
  lemma ClearingLeavesFewer(before: seq<bool>, start: nat)
    requires start < |before| && before[start]
    ensures Left(before[start := false]) < Left(before)
  {
    assert start in Left(before) && start !in Left(before[start := false]);
  }
}
