/** What the second pass does to one arc, and how much danger every single replacement saves. */
module LeafMoves {
  import opened Arcs
  import opened GreedyTree
  import opened DangerPass
  import opened PassSafety
  import opened Sums

  // ----- dangers

  /** Sum of the recorded dangers. */
  function RecordedDanger(arcs: seq<Arc>): real {
    if |arcs| == 0 then 0.0 else RecordedDanger(arcs[..|arcs| - 1]) + arcs[|arcs| - 1].danger
  }

  /** What replacing the start of arc `i` by `j` takes off its danger. */
  function Decrease(inst: Instance, st: PassState, i: nat, j: nat): real
    requires WellFormed(inst) && i < |st.arcs| && st.arcs[i].b < inst.n && j < inst.n
  {
    st.arcs[i].danger - inst.danger[st.arcs[i].b][j]
  }

  /** The decreases of the replacements that `TryMoves` makes, in order. */
  function OfferDecreases(inst: Instance, minDist: seq<real>, st: PassState, i: nat, bound: nat): seq<real>
    requires InBounds(inst, minDist, st) && i < |st.arcs| && bound <= inst.n
  {
    if bound == 0 then []
    else
      var before := TryMoves(inst, minDist, st, i, bound - 1);
      var earlier := OfferDecreases(inst, minDist, st, i, bound - 1);
      if CanMove(inst, minDist, before, i, bound - 1) then earlier + [Decrease(inst, before, i, bound - 1)]
      else earlier
  }

  /** Those of all replacements of the pass. */
  function PassDecreases(inst: Instance, minDist: seq<real>, st: PassState, bound: nat): seq<real>
    requires InBounds(inst, minDist, st) && bound <= |st.arcs|
  {
    if bound == 0 then []
    else
      var before := Pass(inst, minDist, st, bound - 1);
      var earlier := PassDecreases(inst, minDist, st, bound - 1);
      if before.branched[before.arcs[bound - 1].b] == 0
      then earlier + OfferDecreases(inst, minDist, before, bound - 1, inst.n) else earlier
  }

  lemma {:induction false} RecordedPut(arcs: seq<Arc>, i: nat, x: Arc)
    requires i < |arcs|
    ensures RecordedDanger(arcs[i := x]) == RecordedDanger(arcs) - arcs[i].danger + x.danger
  {
    var last := |arcs| - 1;
    if i < last {
      assert arcs[i := x][..last] == arcs[..last][i := x];
      RecordedPut(arcs[..last], i, x);
    } else {
      assert arcs[i := x][..last] == arcs[..last];
    }
  }

  lemma MoveDecreases(inst: Instance, minDist: seq<real>, st: PassState, i: nat, j: nat)
    requires InBounds(inst, minDist, st) && i < |st.arcs| && j < inst.n && CanMove(inst, minDist, st, i, j)
    ensures WellFormed(inst) && st.arcs[i].b < inst.n
    ensures Decrease(inst, st, i, j) > 0.0
    ensures RecordedDanger(Move(inst, minDist, st, i, j).arcs) == RecordedDanger(st.arcs) - Decrease(inst, st, i, j)
  {
    RecordedPut(st.arcs, i, MovedArc(inst, minDist, st, i, j));
  }

  lemma {:induction false} OffersDecrease(inst: Instance, minDist: seq<real>, st: PassState, i: nat, bound: nat)
    requires InBounds(inst, minDist, st) && i < |st.arcs| && bound <= inst.n
    ensures var st', d := TryMoves(inst, minDist, st, i, bound), OfferDecreases(inst, minDist, st, i, bound);
            && (forall k :: 0 <= k < |d| ==> d[k] > 0.0)
            && RecordedDanger(st'.arcs) == RecordedDanger(st.arcs) - Sum(d)
            && (d == [] ==> st' == st)
  {
    hide InBounds, Move, CanMove, Decrease;
    if bound > 0 {
      OffersDecrease(inst, minDist, st, i, bound - 1);
      var before := TryMoves(inst, minDist, st, i, bound - 1);
      if CanMove(inst, minDist, before, i, bound - 1) {
        MoveDecreases(inst, minDist, before, i, bound - 1);
        SumAppend(OfferDecreases(inst, minDist, st, i, bound - 1), [Decrease(inst, before, i, bound - 1)]);
      }
    }
  }

  /** Every replacement takes something off the danger of its arc, all of them together account for the
      danger of the new tree, and without any the tree is the old one. */
  lemma PassesDecrease(inst: Instance, minDist: seq<real>, st: PassState, bound: nat)
    requires InBounds(inst, minDist, st) && bound <= |st.arcs|
    ensures var st', d := Pass(inst, minDist, st, bound), PassDecreases(inst, minDist, st, bound);
            && (forall k :: 0 <= k < |d| ==> d[k] > 0.0)
            && RecordedDanger(st'.arcs) == RecordedDanger(st.arcs) - Sum(d)
            && (d == [] <==> st'.arcs == st.arcs)
  {
    hide InBounds, TryMoves, OfferDecreases;
    PassesDecreaseStep(inst, minDist, st, bound);
    SumPositive(PassDecreases(inst, minDist, st, bound));
  }

  lemma {:induction false} PassesDecreaseStep(inst: Instance, minDist: seq<real>, st: PassState, bound: nat)
    requires InBounds(inst, minDist, st) && bound <= |st.arcs|
    ensures var st', d := Pass(inst, minDist, st, bound), PassDecreases(inst, minDist, st, bound);
            && (forall k :: 0 <= k < |d| ==> d[k] > 0.0)
            && RecordedDanger(st'.arcs) == RecordedDanger(st.arcs) - Sum(d)
            && (d == [] ==> st' == st)
  {
    hide InBounds, TryMoves, OfferDecreases;
    if bound > 0 {
      var i := bound - 1;
      PassesDecreaseStep(inst, minDist, st, i);
      var before := Pass(inst, minDist, st, i);
      OffersDecrease(inst, minDist, before, i, inst.n);
      SumAppend(PassDecreases(inst, minDist, st, i), OfferDecreases(inst, minDist, before, i, inst.n));
    }
  }

  // ----- one arc

  lemma {:induction false} OnlyArc(inst: Instance, minDist: seq<real>, st: PassState, i: nat, bound: nat, k: nat)
    requires InBounds(inst, minDist, st) && i < |st.arcs| && bound <= inst.n && k < |st.arcs| && k != i
    ensures TryMoves(inst, minDist, st, i, bound).arcs[k] == st.arcs[k]
  {
    hide InBounds;
    if bound > 0 {
      OnlyArc(inst, minDist, st, i, bound - 1, k);
    }
  }

  /** An arc keeps its start until its turn ... */
  lemma {:induction false} BeforeItsTurn(inst: Instance, minDist: seq<real>, st: PassState, bound: nat, k: nat)
    requires InBounds(inst, minDist, st) && bound <= k < |st.arcs|
    ensures Pass(inst, minDist, st, bound).arcs[k] == st.arcs[k]
  {
    hide InBounds;
    if bound > 0 {
      BeforeItsTurn(inst, minDist, st, bound - 1, k);
      OnlyArc(inst, minDist, Pass(inst, minDist, st, bound - 1), bound - 1, inst.n, k);
    }
  }

  /** ... and what its turn leaves is final. */
  lemma {:induction false} AfterItsTurn(inst: Instance, minDist: seq<real>, st: PassState, bound: nat, k: nat)
    requires InBounds(inst, minDist, st) && k < bound <= |st.arcs|
    ensures Pass(inst, minDist, st, bound).arcs[k] == Pass(inst, minDist, st, k + 1).arcs[k]
  {
    hide InBounds;
    if k + 1 < bound {
      AfterItsTurn(inst, minDist, st, bound - 1, k);
      OnlyArc(inst, minDist, Pass(inst, minDist, st, bound - 1), bound - 1, inst.n, k);
    }
  }

  /** The pass passes over arc `k` when it comes to it: its stop has a child, or no node is a leaf,
      less dangerous for the stop and near enough. */
  ghost predicate PassedOver(inst: Instance, minDist: seq<real>, st: PassState, k: nat)
    requires InBounds(inst, minDist, st) && k < |st.arcs|
  {
    st.branched[st.arcs[k].b] != 0 || forall j: nat :: j < inst.n ==> !CanMove(inst, minDist, st, k, j)
  }

  lemma {:induction false} NothingToMove(inst: Instance, minDist: seq<real>, st: PassState, i: nat, bound: nat)
    requires InBounds(inst, minDist, st) && i < |st.arcs| && bound <= inst.n
    requires forall j: nat :: j < bound ==> !CanMove(inst, minDist, st, i, j)
    ensures TryMoves(inst, minDist, st, i, bound) == st
  {
    hide InBounds, CanMove;
    if bound > 0 {
      NothingToMove(inst, minDist, st, i, bound - 1);
    }
  }

  /** A leaf that can move ends below a stop. */
  lemma {:induction false} MovesBelowStop(inst: Instance, first: seq<Arc>, minDist: seq<real>, st: PassState,
                                          i: nat, bound: nat, j: nat)
    requires PassInv(inst, first, minDist, st, i + 1) && i < |first| && j < bound <= inst.n
    requires ChildCount(st.arcs, first[i].b) == 0
    requires InBounds(inst, minDist, st) && CanMove(inst, minDist, st, i, j)
    ensures TryMoves(inst, minDist, st, i, bound).arcs[i].a != 0
  {
    hide PassInv, InBounds, CanMove, ChildCount;
    SameArcs(inst, first, minDist, st, i + 1);
    var before := TryMoves(inst, minDist, st, i, bound - 1);
    TryMovesKeepInv(inst, first, minDist, st, i, bound - 1);
    if CanMove(inst, minDist, before, i, bound - 1) {
      MoveTarget(inst, first, minDist, before, i, bound - 1);
    } else if e: nat :| e < bound - 1 && CanMove(inst, minDist, st, i, e) {
      MovesBelowStop(inst, first, minDist, st, i, bound - 1, e);
    } else {
      NothingToMove(inst, minDist, st, i, bound - 1);
    }
  }

  lemma SameArcs(inst: Instance, first: seq<Arc>, minDist: seq<real>, st: PassState, done: nat)
    requires PassInv(inst, first, minDist, st, done)
    ensures |st.arcs| == |first| && |st.branched| == inst.n
    ensures forall k: nat :: k < |first| ==> st.arcs[k].b == first[k].b < inst.n
    ensures forall v: nat :: v < inst.n ==> st.branched[v] == ChildCount(st.arcs, v)
  {
    hide ChildCount;
    PassInvInBounds(inst, first, minDist, st, done);
  }

  /** A line start ends at the school exactly when the pass passes over it. */
  lemma StaysAtSchool(inst: Instance, first: seq<Arc>, minDist: seq<real>, start: PassState, k: nat)
    requires PassInv(inst, first, minDist, start, 0) && start.arcs == first && InBounds(inst, minDist, start)
    requires k < |first| && first[k].a == 0
    ensures Pass(inst, minDist, start, |first|).arcs[k].a == 0 <==>
            PassedOver(inst, minDist, Pass(inst, minDist, start, k), k)
  {
    hide PassInv, InBounds, CanMove, TryMoves, ChildCount;
    var before := Pass(inst, minDist, start, k);
    PassKeepsInv(inst, first, minDist, start, k);
    NextDone(inst, first, minDist, before, k);
    SameArcs(inst, first, minDist, before, k);
    BeforeItsTurn(inst, minDist, start, k, k);
    AfterItsTurn(inst, minDist, start, |first|, k);
    if before.branched[before.arcs[k].b] == 0 {
      if j: nat :| j < inst.n && CanMove(inst, minDist, before, k, j) {
        MovesBelowStop(inst, first, minDist, before, k, inst.n, j);
      } else {
        NothingToMove(inst, minDist, before, k, inst.n);
      }
    }
  }

  lemma NextDone(inst: Instance, first: seq<Arc>, minDist: seq<real>, st: PassState, done: nat)
    requires PassInv(inst, first, minDist, st, done)
    ensures PassInv(inst, first, minDist, st, done + 1)
  {
  }
}
