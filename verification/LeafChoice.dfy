/** Which move the second pass makes for a leaf, said without following its loop: the least dangerous
    of all leaves that are near enough, and the first of several. */
module LeafChoice {
  import opened Arcs
  import opened GreedyTree
  import opened DangerPass
  import opened PassSafety
  import opened LeafMoves

  /** No arc starts at `v`. */
  ghost predicate Free(arcs: seq<Arc>, v: nat) {
    forall m :: 0 <= m < |arcs| ==> arcs[m].a != v
  }

  /** `leaf` could walk to `j`: another node without a child, from which it keeps its limit. */
  ghost predicate Open(inst: Instance, minDist: seq<real>, arcs: seq<Arc>, leaf: nat, j: nat)
    requires WellFormed(inst) && |minDist| == inst.n && leaf < inst.n
  {
    && j < inst.n && j != leaf && Free(arcs, j)
    && minDist[j] + inst.dist[j][leaf] <= inst.dist[0][leaf] * inst.alpha
  }

  /** Among the first `bound` nodes some open one is less dangerous than the arc `x`. */
  ghost predicate Improvable(inst: Instance, minDist: seq<real>, arcs: seq<Arc>, x: Arc, bound: nat)
    requires WellFormed(inst) && |minDist| == inst.n && x.b < inst.n && bound <= inst.n
  {
    exists j: nat :: j < bound && Open(inst, minDist, arcs, x.b, j) && inst.danger[x.b][j] < x.danger
  }

  /** Then `x` becomes the arc from the least dangerous of them, the first of several; else it stays. */
  ghost predicate BestMove(inst: Instance, minDist: seq<real>, arcs: seq<Arc>, x: Arc, x': Arc, bound: nat)
    requires WellFormed(inst) && |minDist| == inst.n && x.b < inst.n && bound <= inst.n
  {
    if Improvable(inst, minDist, arcs, x, bound) then
      && x'.a < bound && Open(inst, minDist, arcs, x.b, x'.a)
      && x'.danger < x.danger
      && x' == Arc(x'.a, x.b, x.branch, minDist[x'.a] + inst.dist[x'.a][x.b], inst.danger[x.b][x'.a])
      && forall j: nat :: j < bound && Open(inst, minDist, arcs, x.b, j) ==>
           x'.danger < inst.danger[x.b][j] || (x'.danger == inst.danger[x.b][j] && x'.a <= j)
    else x' == x
  }

  /** A leaf makes its best move; a stop with a child stays. */
  ghost predicate Turn(inst: Instance, minDist: seq<real>, arcs: seq<Arc>, x: Arc, x': Arc)
    requires WellFormed(inst) && |minDist| == inst.n && x.b < inst.n
  {
    if Free(arcs, x.b) then BestMove(inst, minDist, arcs, x, x', inst.n) else x' == x
  }

  lemma OneTurn(inst: Instance, minDist: seq<real>, arcs: seq<Arc>, x: Arc, x': Arc, x'': Arc)
    requires WellFormed(inst) && |minDist| == inst.n && x.b < inst.n
    requires Turn(inst, minDist, arcs, x, x') && Turn(inst, minDist, arcs, x, x'')
    ensures x' == x''
  {
    hide Free;
  }

  /** After a turn no open node is less dangerous. */
  lemma NothingBetter(inst: Instance, minDist: seq<real>, arcs: seq<Arc>, x: Arc, x': Arc, j: nat)
    requires WellFormed(inst) && |minDist| == inst.n && x.b < inst.n
    requires Turn(inst, minDist, arcs, x, x') && Free(arcs, x.b) && Open(inst, minDist, arcs, x.b, j)
    ensures x'.danger <= inst.danger[x.b][j]
  {
    hide Free;
  }

  /** The counters are exact and arc `i` carries its true danger, as in the first tree. */
  ghost predicate TurnStarts(inst: Instance, minDist: seq<real>, st: PassState, i: nat) {
    && InBounds(inst, minDist, st) && i < |st.arcs|
    && (forall v: nat :: v < inst.n ==> st.branched[v] == ChildCount(st.arcs, v))
    && st.arcs[i].danger == inst.danger[st.arcs[i].b][st.arcs[i].a]
  }

  /** The state while nodes are offered: the counters of the nodes still to come are those of the start,
      except that the old parent may have lost its child. */
  ghost predicate Offered(inst: Instance, minDist: seq<real>, st: PassState, s: PassState, i: nat, bound: nat)
    requires TurnStarts(inst, minDist, st, i) && bound <= inst.n
  {
    && |s.arcs| == |st.arcs| && |s.branched| == inst.n
    && s.arcs[i].danger <= st.arcs[i].danger
    && (forall j: nat :: bound <= j < inst.n && j != st.arcs[i].a ==> s.branched[j] == st.branched[j])
    && BestMove(inst, minDist, st.arcs, st.arcs[i], s.arcs[i], bound)
  }

  lemma ParentNotOpen(inst: Instance, minDist: seq<real>, st: PassState, i: nat)
    requires TurnStarts(inst, minDist, st, i)
    ensures !Open(inst, minDist, st.arcs, st.arcs[i].b, st.arcs[i].a)
  {
  }

  /** Node `j` is accepted exactly when it is open and beats what was accepted before. */
  lemma AcceptedIfBetter(inst: Instance, minDist: seq<real>, st: PassState, s: PassState, i: nat, j: nat)
    requires TurnStarts(inst, minDist, st, i) && j < inst.n && Offered(inst, minDist, st, s, i, j)
    requires InBounds(inst, minDist, s) && s.arcs[i].b == st.arcs[i].b
    ensures CanMove(inst, minDist, s, i, j) <==>
            Open(inst, minDist, st.arcs, st.arcs[i].b, j) && inst.danger[st.arcs[i].b][j] < s.arcs[i].danger
  {
    hide Free;
    ParentNotOpen(inst, minDist, st, i);
    ChildlessIsFree(st.arcs, j);
  }

  lemma ChildlessIsFree(arcs: seq<Arc>, v: nat)
    ensures ChildCount(arcs, v) == 0 <==> Free(arcs, v)
  {
    NoChild(arcs, v);
  }

  lemma OfferMoves(inst: Instance, minDist: seq<real>, st: PassState, s: PassState, i: nat, j: nat)
    requires TurnStarts(inst, minDist, st, i) && j < inst.n && Offered(inst, minDist, st, s, i, j)
    requires InBounds(inst, minDist, s) && s.arcs[i].b == st.arcs[i].b && s.arcs[i].branch == st.arcs[i].branch
    requires CanMove(inst, minDist, s, i, j)
    ensures Offered(inst, minDist, st, Move(inst, minDist, s, i, j), i, j + 1)
  {
    AcceptedIfBetter(inst, minDist, st, s, i, j);
    hide Open, CanMove;
    assert s.arcs[i].a == st.arcs[i].a || s.arcs[i].a < j;
  }

  lemma OfferRefused(inst: Instance, minDist: seq<real>, st: PassState, s: PassState, i: nat, j: nat)
    requires TurnStarts(inst, minDist, st, i) && j < inst.n && Offered(inst, minDist, st, s, i, j)
    requires InBounds(inst, minDist, s) && s.arcs[i].b == st.arcs[i].b
    requires !CanMove(inst, minDist, s, i, j)
    ensures Offered(inst, minDist, st, s, i, j + 1)
  {
    AcceptedIfBetter(inst, minDist, st, s, i, j);
    hide Open, CanMove, InBounds;
  }

  lemma {:induction false} OffersChoose(inst: Instance, minDist: seq<real>, st: PassState, i: nat, bound: nat)
    requires TurnStarts(inst, minDist, st, i) && bound <= inst.n
    ensures TryMoves(inst, minDist, st, i, bound).arcs[i].b == st.arcs[i].b
    ensures TryMoves(inst, minDist, st, i, bound).arcs[i].branch == st.arcs[i].branch
    ensures Offered(inst, minDist, st, TryMoves(inst, minDist, st, i, bound), i, bound)
  {
    hide Open, CanMove;
    if bound > 0 {
      var j := bound - 1;
      OffersChoose(inst, minDist, st, i, j);
      hide Offered, InBounds;
      var before := TryMoves(inst, minDist, st, i, j);
      if CanMove(inst, minDist, before, i, j) {
        OfferMoves(inst, minDist, st, before, i, j);
      } else {
        OfferRefused(inst, minDist, st, before, i, j);
      }
    }
  }

  /** The turn of arc `k`. */
  lemma TurnOfArc(inst: Instance, first: seq<Arc>, minDist: seq<real>, start: PassState, k: nat)
    requires PassInv(inst, first, minDist, start, 0) && start.arcs == first && InBounds(inst, minDist, start)
    requires k < |first|
    ensures first[k].b < inst.n && |minDist| == inst.n
    ensures Turn(inst, minDist, Pass(inst, minDist, start, k).arcs, first[k], Pass(inst, minDist, start, |first|).arcs[k])
  {
    hide PassInv, Turn, Offered, CanMove, TryMoves, Free, FirstPassDone;
    var before := Pass(inst, minDist, start, k);
    PassKeepsInv(inst, first, minDist, start, k);
    SameArcs(inst, first, minDist, before, k);
    BeforeItsTurn(inst, minDist, start, k, k);
    AfterItsTurn(inst, minDist, start, |first|, k);
    TurnCanStart(inst, first, minDist, before, k);
    ChildlessIsFree(before.arcs, first[k].b);
    TurnDone(inst, minDist, before, k);
  }

  lemma TurnCanStart(inst: Instance, first: seq<Arc>, minDist: seq<real>, st: PassState, k: nat)
    requires PassInv(inst, first, minDist, st, k) && InBounds(inst, minDist, st) && k < |first|
    ensures |st.arcs| == |first| && st.arcs[k] == first[k]
    ensures TurnStarts(inst, minDist, st, k)
  {
    FirstArc(inst, first, minDist, k);
  }

  lemma TurnDone(inst: Instance, minDist: seq<real>, st: PassState, k: nat)
    requires TurnStarts(inst, minDist, st, k)
    ensures st.arcs[k].b < inst.n && |minDist| == inst.n
    ensures Turn(inst, minDist, st.arcs, st.arcs[k],
                 if st.branched[st.arcs[k].b] == 0 then TryMoves(inst, minDist, st, k, inst.n).arcs[k] else st.arcs[k])
  {
    OffersChoose(inst, minDist, st, k, inst.n);
    ChildlessIsFree(st.arcs, st.arcs[k].b);
  }

  // ----- the whole pass

  /** The arcs when the turn comes to arc `k`: handled ones as they end, the others as they began. */
  function Mixed(first: seq<Arc>, final: seq<Arc>, k: nat): seq<Arc>
    requires k <= |first| == |final|
  {
    final[..k] + first[k..]
  }

  lemma MixedIsPass(inst: Instance, minDist: seq<real>, start: PassState, k: nat)
    requires InBounds(inst, minDist, start) && k <= |start.arcs|
    ensures Pass(inst, minDist, start, k).arcs == Mixed(start.arcs, Pass(inst, minDist, start, |start.arcs|).arcs, k)
  {
    hide InBounds, Pass;
    var n := |start.arcs|;
    forall m: nat | m < n
      ensures Pass(inst, minDist, start, k).arcs[m] == Mixed(start.arcs, Pass(inst, minDist, start, n).arcs, k)[m]
    {
      if m < k {
        AfterItsTurn(inst, minDist, start, n, m);
        AfterItsTurn(inst, minDist, start, k, m);
      } else {
        BeforeItsTurn(inst, minDist, start, k, m);
      }
    }
  }

  /** Every arc of the tree `final` comes from the first tree by its turn. */
  ghost predicate TakesTurns(inst: Instance, minDist: seq<real>, first: seq<Arc>, final: seq<Arc>)
    requires WellFormed(inst) && |minDist| == inst.n
  {
    && |final| == |first|
    && forall k: nat :: k < |first| ==> first[k].b < inst.n && Turn(inst, minDist, Mixed(first, final, k), first[k], final[k])
  }

  lemma {:induction false} SameTurns(inst: Instance, minDist: seq<real>, first: seq<Arc>, final: seq<Arc>, other: seq<Arc>, k: nat)
    requires WellFormed(inst) && |minDist| == inst.n && k <= |first|
    requires TakesTurns(inst, minDist, first, final) && TakesTurns(inst, minDist, first, other)
    ensures final[..k] == other[..k]
  {
    hide Turn;
    if k > 0 {
      SameTurns(inst, minDist, first, final, other, k - 1);
      assert Mixed(first, final, k - 1) == Mixed(first, other, k - 1);
      OneTurn(inst, minDist, Mixed(first, final, k - 1), first[k - 1], final[k - 1], other[k - 1]);
      assert final[..k] == final[..k - 1] + [final[k - 1]] && other[..k] == other[..k - 1] + [other[k - 1]];
    }
  }

  /** The pass ends with the one tree that comes from the first by every arc's turn. */
  lemma PassTakesTurns(inst: Instance, first: seq<Arc>, minDist: seq<real>, start: PassState, final: seq<Arc>)
    requires PassInv(inst, first, minDist, start, 0) && start.arcs == first && InBounds(inst, minDist, start)
    ensures WellFormed(inst) && |minDist| == inst.n
    ensures TakesTurns(inst, minDist, first, final) <==> final == Pass(inst, minDist, start, |first|).arcs
  {
    hide PassInv, Turn, Pass, Mixed;
    var end := Pass(inst, minDist, start, |first|).arcs;
    forall k: nat | k < |first|
      ensures first[k].b < inst.n && Turn(inst, minDist, Mixed(first, end, k), first[k], end[k])
    {
      TurnOfArc(inst, first, minDist, start, k);
      MixedIsPass(inst, minDist, start, k);
    }
    if TakesTurns(inst, minDist, first, final) {
      SameTurns(inst, minDist, first, final, end, |first|);
      assert final[..|first|] == final && end[..|first|] == end;
    }
  }
}
