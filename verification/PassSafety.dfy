/** The second pass keeps every condition of the challenge, although it tests the distances of the
    first pass, which it never refreshes: a stop that was moved never becomes a parent. */
module PassSafety {
  import opened Arcs
  import opened GreedyTree
  import opened Counting
  import opened DangerPass

  /** The first pass is over: all stops are in a greedy tree and the arrays describe it. */
  ghost predicate FirstPassDone(inst: Instance, first: seq<Arc>, minDist: seq<real>) {
    && ValidInstance(inst)
    && SpansGreedily(inst, first)
    && |minDist| == inst.n
    && forall v: nat :: v < inst.n ==> minDist[v] == MinDist(first, v)
  }

  /** Arc `k` was moved: its stop was and is a leaf, walks to another stop on a safer arc, and keeps
      its limit as far as the recorded distances say. */
  ghost predicate Moved(inst: Instance, first: seq<Arc>, minDist: seq<real>, arcs: seq<Arc>, k: nat)
    requires WellFormed(inst) && |minDist| == inst.n && k < |arcs| == |first|
  {
    var x := arcs[k];
    && 0 < x.a < inst.n && x.b < inst.n
    && x.dist == minDist[x.a] + inst.dist[x.a][x.b] <= inst.dist[0][x.b] * inst.alpha
    && x.danger == inst.danger[x.b][x.a] < first[k].danger
    && ChildCount(first, x.b) == 0 && ChildCount(arcs, x.b) == 0
  }

  /** What holds after the first `done` arcs were handled. */
  ghost predicate PassInv(inst: Instance, first: seq<Arc>, minDist: seq<real>, st: PassState, done: nat) {
    && FirstPassDone(inst, first, minDist)
    && |st.arcs| == |first| && |st.branched| == inst.n
    && (forall k: nat :: k < |first| ==> st.arcs[k].b == first[k].b)
    && (forall k: nat :: k < |first| ==>
          st.arcs[k] == first[k] || (k < done && Moved(inst, first, minDist, st.arcs, k)))
    && (forall v: nat :: v < inst.n ==> st.branched[v] == ChildCount(st.arcs, v))
    && (forall u: nat :: 1 <= u < inst.n ==> ChildCount(st.arcs, u) <= 1)
  }

  /** Facts of the first pass, one arc at a time. */
  lemma FirstArc(inst: Instance, first: seq<Arc>, minDist: seq<real>, k: nat)
    requires FirstPassDone(inst, first, minDist) && k < |first|
    ensures DistinctStops(first)
    ensures first[k].a < inst.n && 0 < first[k].b < inst.n
    ensures first[k].a != 0 ==> k > 0 && first[k].a == first[k - 1].b
    ensures minDist[first[k].b] == first[k].dist <= inst.dist[0][first[k].b] * inst.alpha
    ensures first[k].dist == (if first[k].a == 0 then 0.0 else first[k - 1].dist) + inst.dist[first[k].a][first[k].b]
    ensures first[k].danger == inst.danger[first[k].b][first[k].a]
  {
    GreedyShape(inst, first, k);
    LinesOpenAtSchool(inst, first, k);
    MinDistAt(first, k);
    if first[k].a == 0 {
      MinDistAbsent(first, 0);
    } else {
      OneLineAtATime(inst, first, k);
      MinDistAt(first, k - 1);
    }
  }

  lemma PassInvInBounds(inst: Instance, first: seq<Arc>, minDist: seq<real>, st: PassState, done: nat)
    requires PassInv(inst, first, minDist, st, done)
    ensures InBounds(inst, minDist, st) && DistinctStops(st.arcs)
    ensures forall k: nat :: k < |first| ==> 0 < st.arcs[k].b
  {
    forall k: nat | k < |first| ensures first[k].a < inst.n && 0 < first[k].b < inst.n && DistinctStops(first) {
      FirstArc(inst, first, minDist, k);
    }
  }

  lemma PassStarts(inst: Instance, first: seq<Arc>, minDist: seq<real>, branched: seq<int>)
    requires FirstPassDone(inst, first, minDist) && |branched| == inst.n
    requires forall v: nat :: v < inst.n ==> branched[v] == ChildCount(first, v)
    ensures PassInv(inst, first, minDist, PassState(first, branched), 0)
  {
    forall u: nat | 1 <= u < inst.n ensures ChildCount(first, u) <= 1 {
      forall i, k | 0 <= i < k < |first| ensures !(first[i].a == u && first[k].a == u) {
        if first[i].a == u && first[k].a == u { OneChildPerStop(inst, first, i, k); }
      }
      AtMostOneChild(first, u);
    }
  }

  /** A stop that is childless when its turn comes was childless in the first tree. */
  lemma WasLeaf(inst: Instance, first: seq<Arc>, minDist: seq<real>, st: PassState, i: nat)
    requires PassInv(inst, first, minDist, st, i + 1) && i < |first|
    requires ChildCount(st.arcs, first[i].b) == 0
    ensures ChildCount(first, first[i].b) == 0
  {
    NoChild(first, first[i].b);
    NoChild(st.arcs, first[i].b);
    FirstArc(inst, first, minDist, i);
    assert i + 1 < |first| ==> st.arcs[i + 1] == first[i + 1];
    forall m | 0 <= m < |first| ensures first[m].a != first[i].b {
      if first[m].a == first[i].b {
        FirstArc(inst, first, minDist, m);
      }
    }
  }

  /** The distance test refuses every stop moved before: it ends a line that could not be extended
      to any later stop. */
  lemma MovedStopsRefused(inst: Instance, first: seq<Arc>, minDist: seq<real>, k: nat, i: nat)
    requires FirstPassDone(inst, first, minDist) && k < i < |first|
    requires ChildCount(first, first[k].b) == 0
    ensures first[k].b < inst.n && first[i].b < inst.n
    ensures minDist[first[k].b] + inst.dist[first[k].b][first[i].b] > inst.dist[0][first[i].b] * inst.alpha
  {
    FirstArc(inst, first, minDist, k);
    FirstArc(inst, first, minDist, i);
    FirstArc(inst, first, minDist, k + 1);
    NoChild(first, first[k].b);
    NoChild(first[..k + 1], first[k].b);
    StuckEnd(inst, first, k, k + 1, i);
  }

  /** While some stop is a leaf the school has a child, so no leaf is ever moved to the school. */
  lemma SchoolKeepsAChild(inst: Instance, first: seq<Arc>, minDist: seq<real>, st: PassState, done: nat, leaf: nat)
    requires PassInv(inst, first, minDist, st, done) && 1 <= leaf < inst.n && ChildCount(st.arcs, leaf) == 0
    ensures ChildCount(st.arcs, 0) > 0
  {
    PassInvInBounds(inst, first, minDist, st, done);
    LeavesAreLines(st.arcs, inst.n);
    ChildlessWitness(st.arcs, inst.n, leaf);
  }

  /** The node a leaf moves to is a stop that was never moved itself. */
  lemma MoveTarget(inst: Instance, first: seq<Arc>, minDist: seq<real>, st: PassState, i: nat, j: nat)
    requires PassInv(inst, first, minDist, st, i + 1) && i < |first| && j < inst.n
    requires ChildCount(st.arcs, first[i].b) == 0
    requires InBounds(inst, minDist, st) && CanMove(inst, minDist, st, i, j)
    ensures j > 0
    ensures forall k: nat :: k < |first| && k != i && st.arcs[k] != first[k] ==> first[k].b != j
  {
    hide SpansGreedily, MinDist, ChildCount, IsDistance, DistinctStops;
    FirstArc(inst, first, minDist, i);
    SchoolKeepsAChild(inst, first, minDist, st, i + 1, first[i].b);
    forall k: nat | k < |first| && k != i && st.arcs[k] != first[k]
      ensures first[k].b != j
    {
      if first[k].b == j {
        MovedStopsRefused(inst, first, minDist, k, i);
      }
    }
  }

  lemma MoveCounts(inst: Instance, minDist: seq<real>, st: PassState, i: nat, j: nat)
    requires InBounds(inst, minDist, st) && i < |st.arcs| && j < inst.n && j != st.arcs[i].b
    ensures forall u: nat :: ChildCount(Move(inst, minDist, st, i, j).arcs, u) ==
              ChildCount(st.arcs, u) - (if st.arcs[i].a == u then 1 else 0) + (if j == u then 1 else 0)
  {
    forall u: nat {
      ChildCountUpdate(st.arcs, i, MovedArc(inst, minDist, st, i, j), u);
    }
  }

  lemma MoveKeepsInv(inst: Instance, first: seq<Arc>, minDist: seq<real>, st: PassState, i: nat, j: nat)
    requires PassInv(inst, first, minDist, st, i + 1) && i < |first| && j < inst.n
    requires ChildCount(st.arcs, first[i].b) == 0
    requires InBounds(inst, minDist, st) && CanMove(inst, minDist, st, i, j)
    ensures PassInv(inst, first, minDist, Move(inst, minDist, st, i, j), i + 1)
    ensures ChildCount(Move(inst, minDist, st, i, j).arcs, first[i].b) == 0
  {
    hide SpansGreedily, MinDist, ChildCount, IsDistance, DistinctStops;
    var st' := Move(inst, minDist, st, i, j);
    PassInvInBounds(inst, first, minDist, st, i + 1);
    MoveTarget(inst, first, minDist, st, i, j);
    MoveCounts(inst, minDist, st, i, j);
    WasLeaf(inst, first, minDist, st, i);
    NoChild(st.arcs, first[i].b);
    assert st.arcs[i].a != first[i].b;
    forall k: nat | k < |first|
      ensures st'.arcs[k] == first[k] || (k < i + 1 && Moved(inst, first, minDist, st'.arcs, k))
    {
      if k == i {
        assert Moved(inst, first, minDist, st'.arcs, i);
      } else if st.arcs[k] != first[k] {
        assert Moved(inst, first, minDist, st.arcs, k);
      }
    }
  }

  lemma {:induction false} TryMovesKeepInv(inst: Instance, first: seq<Arc>, minDist: seq<real>, st: PassState,
                                           i: nat, bound: nat)
    requires PassInv(inst, first, minDist, st, i + 1) && i < |first| && bound <= inst.n
    requires ChildCount(st.arcs, first[i].b) == 0
    requires InBounds(inst, minDist, st)
    ensures PassInv(inst, first, minDist, TryMoves(inst, minDist, st, i, bound), i + 1)
    ensures ChildCount(TryMoves(inst, minDist, st, i, bound).arcs, first[i].b) == 0
  {
    hide FirstPassDone, Moved, ChildCount;
    if bound > 0 {
      TryMovesKeepInv(inst, first, minDist, st, i, bound - 1);
      var before := TryMoves(inst, minDist, st, i, bound - 1);
      if CanMove(inst, minDist, before, i, bound - 1) {
        MoveKeepsInv(inst, first, minDist, before, i, bound - 1);
      }
    }
  }

  lemma {:induction false} PassKeepsInv(inst: Instance, first: seq<Arc>, minDist: seq<real>, st: PassState, bound: nat)
    requires PassInv(inst, first, minDist, st, 0) && bound <= |first|
    requires InBounds(inst, minDist, st)
    ensures PassInv(inst, first, minDist, Pass(inst, minDist, st, bound), bound)
  {
    if bound > 0 {
      var i := bound - 1;
      PassKeepsInv(inst, first, minDist, st, i);
      var before := Pass(inst, minDist, st, i);
      FirstArc(inst, first, minDist, i);
      assert PassInv(inst, first, minDist, before, bound);
      if before.branched[before.arcs[i].b] == 0 {
        TryMovesKeepInv(inst, first, minDist, before, i, inst.n);
      }
    }
  }
}
