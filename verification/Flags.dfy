/** Counting the nodes that a tree has not reached yet. */
module Flags {

  /** Number of nodes among the first `bound` that are still outside the tree. */
  function Unvisited(inTree: seq<bool>, bound: nat): nat
    requires bound <= |inTree|
  {
    if bound == 0 then 0
    else Unvisited(inTree, bound - 1) + if inTree[bound - 1] then 0 else 1
  }

  lemma {:induction false} UnvisitedAfterVisit(inTree: seq<bool>, v: nat, bound: nat)
    requires bound <= |inTree| && v < |inTree| && !inTree[v]
    ensures Unvisited(inTree[v := true], bound) == Unvisited(inTree, bound) - if v < bound then 1 else 0
  {
    if bound > 0 {
      UnvisitedAfterVisit(inTree, v, bound - 1);
    }
  }

  lemma {:induction false} UnvisitedExists(inTree: seq<bool>, bound: nat) returns (v: nat)
    requires bound <= |inTree| && Unvisited(inTree, bound) > 0
    ensures v < bound && !inTree[v]
  {
    if inTree[bound - 1] {
      v := UnvisitedExists(inTree, bound - 1);
    } else {
      v := bound - 1;
    }
  }

  lemma {:induction false} UnvisitedNone(inTree: seq<bool>, bound: nat)
    requires bound <= |inTree| && forall v :: 1 <= v < |inTree| ==> !inTree[v]
    requires |inTree| > 0 && inTree[0]
    ensures Unvisited(inTree, bound) == if bound == 0 then 0 else bound - 1
  {
    if bound > 1 {
      UnvisitedNone(inTree, bound - 1);
    }
  }

  lemma {:induction false} UnvisitedGrows(inTree: seq<bool>, j: nat, bound: nat)
    requires j <= bound <= |inTree|
    ensures Unvisited(inTree, j) <= Unvisited(inTree, bound)
  {
    if j < bound {
      UnvisitedGrows(inTree, j, bound - 1);
    }
  }
}
