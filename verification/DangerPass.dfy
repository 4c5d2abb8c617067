/** The solver's second pass: leaves are moved below other leaves when that is less dangerous. */
module DangerPass {
  import opened Arcs

  /** What the pass changes: the selected arcs and the number of children of each node. */
  datatype PassState = PassState(arcs: seq<Arc>, branched: seq<int>)

  ghost predicate InBounds(inst: Instance, minDist: seq<real>, st: PassState) {
    && WellFormed(inst)
    && |minDist| == |st.branched| == inst.n
    && forall k :: 0 <= k < |st.arcs| ==> st.arcs[k].a < inst.n && st.arcs[k].b < inst.n
  }

  /** Node `j` is a leaf, closer to safety for the stop of arc `i`, and within its limit. */
  predicate CanMove(inst: Instance, minDist: seq<real>, st: PassState, i: nat, j: nat)
    requires InBounds(inst, minDist, st) && i < |st.arcs| && j < inst.n
  {
    var leaf := st.arcs[i].b;
    && st.branched[j] == 0 && leaf != j
    && inst.danger[leaf][j] < st.arcs[i].danger
    && minDist[j] + inst.dist[j][leaf] <= inst.dist[0][leaf] * inst.alpha
  }

  /** Arc `i` after its stop was moved below `j`. */
  function MovedArc(inst: Instance, minDist: seq<real>, st: PassState, i: nat, j: nat): Arc
    requires InBounds(inst, minDist, st) && i < |st.arcs| && j < inst.n
  {
    var leaf := st.arcs[i].b;
    st.arcs[i].(a := j, danger := inst.danger[leaf][j], dist := minDist[j] + inst.dist[j][leaf])
  }

  function Move(inst: Instance, minDist: seq<real>, st: PassState, i: nat, j: nat): (st': PassState)
    requires InBounds(inst, minDist, st) && i < |st.arcs| && j < inst.n
    ensures InBounds(inst, minDist, st') && |st'.arcs| == |st.arcs|
  {
    var raised := st.branched[j := st.branched[j] + 1];
    var parent := st.arcs[i].a;
    PassState(st.arcs[i := MovedArc(inst, minDist, st, i, j)], raised[parent := raised[parent] - 1])
  }

  /** The state after offering nodes 0..bound-1, in this order, to the leaf of arc `i`. */
  function TryMoves(inst: Instance, minDist: seq<real>, st: PassState, i: nat, bound: nat): (st': PassState)
    requires InBounds(inst, minDist, st) && i < |st.arcs| && bound <= inst.n
    ensures InBounds(inst, minDist, st') && |st'.arcs| == |st.arcs|
  {
    if bound == 0 then st
    else
      var before := TryMoves(inst, minDist, st, i, bound - 1);
      if CanMove(inst, minDist, before, i, bound - 1) then Move(inst, minDist, before, i, bound - 1) else before
  }

  /** The state after the first `bound` arcs were handled; only arcs that enter a leaf are. */
  function Pass(inst: Instance, minDist: seq<real>, st: PassState, bound: nat): (st': PassState)
    requires InBounds(inst, minDist, st) && bound <= |st.arcs|
    ensures InBounds(inst, minDist, st') && |st'.arcs| == |st.arcs|
  {
    if bound == 0 then st
    else
      var before := Pass(inst, minDist, st, bound - 1);
      if before.branched[before.arcs[bound - 1].b] == 0 then TryMoves(inst, minDist, before, bound - 1, inst.n)
      else before
  }

  /** The pass on the program's arrays. */
  method MinimizeDanger(inst: Instance, minDist: array<real>, mspArcs: array<Arc>, mspArcsCount: nat, branched: array<int>)
    requires mspArcsCount <= mspArcs.Length
    requires InBounds(inst, minDist[..], PassState(mspArcs[..mspArcsCount], branched[..]))
    modifies mspArcs, branched
    ensures minDist[..] == old(minDist[..])
    ensures PassState(mspArcs[..mspArcsCount], branched[..]) ==
            Pass(inst, minDist[..], old(PassState(mspArcs[..mspArcsCount], branched[..])), mspArcsCount)
  {
    ghost var first := PassState(mspArcs[..mspArcsCount], branched[..]);
    for i := 0 to mspArcsCount
      invariant PassState(mspArcs[..mspArcsCount], branched[..]) == Pass(inst, minDist[..], first, i)
    {
      ghost var before := Pass(inst, minDist[..], first, i);
      assert mspArcs[i] == before.arcs[i];
      if branched[mspArcs[i].b] == 0 {
        OfferLeaves(inst, minDist, mspArcs, mspArcsCount, branched, i);
      }
    }
  }

  /** Replaces the start of arc `i` by `j` and keeps the counters of children. */
  method Substitute(mspArcs: array<Arc>, mspArcsCount: nat, branched: array<int>, i: nat, j: nat,
                    danger: real, dist: real)
    requires i < mspArcsCount <= mspArcs.Length && j < branched.Length && mspArcs[i].a < branched.Length
    modifies mspArcs, branched
    ensures mspArcs[..mspArcsCount] ==
            old(mspArcs[..mspArcsCount])[i := old(mspArcs[i]).(a := j, danger := danger, dist := dist)]
    ensures var raised := old(branched[..])[j := old(branched[j]) + 1];
            branched[..] == raised[old(mspArcs[i].a) := raised[old(mspArcs[i].a)] - 1]
  {
    branched[j] := branched[j] + 1;
    branched[mspArcs[i].a] := branched[mspArcs[i].a] - 1;
    mspArcs[i] := mspArcs[i].(a := j, danger := danger, dist := dist);
  }

  /** Offering one more node is one unfolding of `TryMoves`. */
  lemma OneOffer(inst: Instance, minDist: seq<real>, st: PassState, i: nat, j: nat)
    requires InBounds(inst, minDist, st) && i < |st.arcs| && j < inst.n
    ensures var before := TryMoves(inst, minDist, st, i, j);
            TryMoves(inst, minDist, st, i, j + 1) ==
            if CanMove(inst, minDist, before, i, j) then Move(inst, minDist, before, i, j) else before
  {
  }

  lemma InBoundsAt(inst: Instance, minDist: seq<real>, st: PassState, i: nat, j: nat)
    requires InBounds(inst, minDist, st) && i < |st.arcs| && j < inst.n
    ensures |inst.dist| == |inst.danger| == |minDist| == |st.branched| == inst.n
    ensures st.arcs[i].a < inst.n && st.arcs[i].b < inst.n
    ensures |inst.danger[st.arcs[i].b]| == |inst.dist[j]| == |inst.dist[0]| == inst.n
  {
  }

  /** The inner loop of the pass, for the leaf that arc `i` enters. */
  method OfferLeaves(inst: Instance, minDist: array<real>, mspArcs: array<Arc>, mspArcsCount: nat,
                     branched: array<int>, i: nat)
    requires i < mspArcsCount <= mspArcs.Length
    requires InBounds(inst, minDist[..], PassState(mspArcs[..mspArcsCount], branched[..]))
    modifies mspArcs, branched
    ensures minDist[..] == old(minDist[..])
    ensures PassState(mspArcs[..mspArcsCount], branched[..]) ==
            TryMoves(inst, minDist[..], old(PassState(mspArcs[..mspArcsCount], branched[..])), i, inst.n)
  {
    hide InBounds, TryMoves, WellFormed;
    ghost var first := PassState(mspArcs[..mspArcsCount], branched[..]);
    assert TryMoves(inst, minDist[..], first, i, 0) == first by { NoOffer(inst, minDist[..], first, i); }
    var arcDanger := mspArcs[i].danger;
    var selectedNode := mspArcs[i].b;
    for j := 0 to inst.n
      invariant PassState(mspArcs[..mspArcsCount], branched[..]) == TryMoves(inst, minDist[..], first, i, j)
      invariant arcDanger == mspArcs[i].danger && selectedNode == mspArcs[i].b
    {
      ghost var before := TryMoves(inst, minDist[..], first, i, j);
      assert mspArcs[i] == before.arcs[i];
      OneOffer(inst, minDist[..], first, i, j);
      InBoundsAt(inst, minDist[..], before, i, j);
      if branched[j] == 0 && selectedNode != j {
        if inst.danger[selectedNode][j] < arcDanger {
          var nodeDistance := minDist[j] + inst.dist[j][selectedNode];
          if nodeDistance <= inst.dist[0][selectedNode] * inst.alpha {
            arcDanger := inst.danger[selectedNode][j];
            Substitute(mspArcs, mspArcsCount, branched, i, j, arcDanger, nodeDistance);
          }
        }
      }
    }
  }

  lemma NoOffer(inst: Instance, minDist: seq<real>, st: PassState, i: nat)
    requires InBounds(inst, minDist, st) && i < |st.arcs|
    ensures TryMoves(inst, minDist, st, i, 0) == st
  {
  }
}
