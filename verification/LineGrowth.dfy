/** The tree of the first pass without any order on arcs: lines grow one after the other, always to the
    nearest stop that can still keep its limit. */
module LineGrowth {
  import opened Arcs
  import opened GreedyTree

  /** No arc enters `v`. */
  ghost predicate Outside(arcs: seq<Arc>, v: nat) {
    v != 0 && forall i :: 0 <= i < |arcs| ==> arcs[i].b != v
  }

  /** The stop entered last can be followed by `v` within the limit of `v`. */
  ghost predicate Follows(inst: Instance, arcs: seq<Arc>, v: nat)
    requires WellFormed(inst) && v < inst.n
  {
    && |arcs| > 0 && arcs[|arcs| - 1].b < inst.n
    && arcs[|arcs| - 1].dist + inst.dist[arcs[|arcs| - 1].b][v] <= inst.dist[0][v] * inst.alpha
  }

  /** `x` leads from `u`, at distance `base`, to a stop outside that is nearer than `v`, or as near and no
      more dangerous. */
  ghost predicate NoFarther(inst: Instance, u: nat, x: nat, v: nat)
    requires WellFormed(inst) && u < inst.n && x < inst.n && v < inst.n
  {
    || inst.dist[u][x] < inst.dist[u][v]
    || (inst.dist[u][x] == inst.dist[u][v] && inst.danger[x][u] <= inst.danger[v][u])
  }

  /** If some stop outside can follow, the nearest that can does; if none can, the stop nearest to the
      school opens a line. Of stops equally near the one with the less dangerous step comes first. */
  ghost predicate NearestStep(inst: Instance, arcs: seq<Arc>, x: Arc)
    requires WellFormed(inst)
  {
    && x.a < inst.n && x.b < inst.n && Outside(arcs, x.b) && x.danger == inst.danger[x.b][x.a]
    && if exists v: nat :: v < inst.n && Outside(arcs, v) && Follows(inst, arcs, v) then
         && |arcs| > 0 && x.a == arcs[|arcs| - 1].b && x.branch == 1
         && x.dist == arcs[|arcs| - 1].dist + inst.dist[x.a][x.b]
         && Follows(inst, arcs, x.b)
         && forall v: nat :: v < inst.n && Outside(arcs, v) && Follows(inst, arcs, v) ==> NoFarther(inst, x.a, x.b, v)
       else
         && x.a == 0 && x.branch == 0 && x.dist == inst.dist[0][x.b]
         && forall v: nat :: v < inst.n && Outside(arcs, v) ==> NoFarther(inst, 0, x.b, v)
  }

  ghost predicate NearestRun(inst: Instance, arcs: seq<Arc>)
    requires WellFormed(inst)
  {
    forall k {:trigger arcs[..k]} :: 0 <= k < |arcs| ==> NearestStep(inst, arcs[..k], arcs[k])
  }

  lemma OutsideTree(arcs: seq<Arc>, v: nat)
    ensures Outside(arcs, v) <==> !InTree(arcs, v)
  {
  }

  /** What is recorded of the stop entered last. */
  lemma LastStop(inst: Instance, arcs: seq<Arc>)
    requires ValidInstance(inst) && GreedyRun(inst, arcs) && |arcs| > 0
    ensures var end := arcs[|arcs| - 1];
            && 0 < end.b < inst.n && InTree(arcs, end.b)
            && MinDist(arcs, end.b) == end.dist && ChildCount(arcs, end.b) == 0
  {
    var last := |arcs| - 1;
    GreedyShape(inst, arcs, last);
    MinDistAt(arcs, last);
    NoChild(arcs, arcs[last].b);
    forall m | 0 <= m < |arcs| ensures arcs[m].a != arcs[last].b {
      if arcs[m].a != 0 {
        OneLineAtATime(inst, arcs, m);
      }
    }
  }

  /** Only the stop entered last can still be followed: every other is the school, has a child, or ends
      a line that could not be extended. */
  lemma OnlyLastFollowed(inst: Instance, arcs: seq<Arc>, y: Arc)
    requires ValidInstance(inst) && GreedyRun(inst, arcs) && Eligible(inst, arcs, y) && y.branch == 1
    ensures |arcs| > 0 && y.a == arcs[|arcs| - 1].b && Follows(inst, arcs, y.b)
    ensures y.dist == arcs[|arcs| - 1].dist + inst.dist[y.a][y.b]
  {
    var i :| 0 <= i < |arcs| && arcs[i].b == y.a;
    LastStop(inst, arcs);
    GreedyShape(inst, arcs, i);
    MinDistAt(arcs, i);
    if i < |arcs| - 1 {
      LineEnded(inst, arcs, i, y.b);
    }
  }

  /** A stop without a child that was not entered last cannot be followed. */
  lemma LineEnded(inst: Instance, arcs: seq<Arc>, i: nat, v: nat)
    requires ValidInstance(inst) && GreedyRun(inst, arcs) && i + 1 < |arcs| && v < inst.n && !InTree(arcs, v)
    requires ChildCount(arcs, arcs[i].b) == 0
    ensures arcs[i].b < inst.n
    ensures arcs[i].dist + inst.dist[arcs[i].b][v] > inst.dist[0][v] * inst.alpha
  {
    var before := arcs[..i + 1];
    NoChild(arcs, arcs[i].b);
    NoChild(before, arcs[i].b);
    GreedyShape(inst, arcs, i);
    if arcs[i + 1].a != 0 {
      OneLineAtATime(inst, arcs, i + 1);
    }
    StepAt(inst, arcs, i + 1);
    LinesOpenAtSchool(inst, arcs, i + 1);
    assert before[i] == arcs[i];
    MinDistAt(before, i);
    StuckStep(inst, before, arcs[i + 1], arcs[i].b, v);
  }

  /** A stop that can follow is a candidate, at the distance recorded. */
  lemma FollowerEligible(inst: Instance, arcs: seq<Arc>, v: nat) returns (y: Arc)
    requires ValidInstance(inst) && GreedyRun(inst, arcs) && v < inst.n && Outside(arcs, v) && Follows(inst, arcs, v)
    ensures Eligible(inst, arcs, y) && y.branch == 1 && y.a == arcs[|arcs| - 1].b && y.b == v
    ensures y.dist == arcs[|arcs| - 1].dist + inst.dist[y.a][v] && y.danger == inst.danger[v][y.a]
  {
    LastStop(inst, arcs);
    y := Candidate(inst, arcs, arcs[|arcs| - 1].b, v);
  }

  lemma OpenerEligible(inst: Instance, arcs: seq<Arc>, v: nat) returns (y: Arc)
    requires ValidInstance(inst) && GreedyRun(inst, arcs) && v < inst.n && Outside(arcs, v)
    ensures Eligible(inst, arcs, y) && y == Arc(0, v, 0, inst.dist[0][v], inst.danger[v][0])
  {
    if |arcs| > 0 { GreedyShape(inst, arcs, 0); }
    SchoolArcEligible(inst, arcs, v);
    y := Candidate(inst, arcs, 0, v);
  }

  /** A candidate that would open a line is no shorter than the school's arc to the same stop. */
  lemma OpenersLonger(inst: Instance, arcs: seq<Arc>, y: Arc)
    requires ValidInstance(inst) && GreedyRun(inst, arcs) && Eligible(inst, arcs, y) && y.branch != 1
    ensures y.branch == 0 && y.dist >= inst.dist[0][y.b]
    ensures y.a != 0 ==> y.dist > inst.dist[0][y.b]
    ensures y.a == 0 ==> y == Arc(0, y.b, 0, inst.dist[0][y.b], inst.danger[y.b][0])
  {
    LimitAboveDirect(inst.alpha, inst.dist[0][y.b]);
    if |arcs| > 0 { GreedyShape(inst, arcs, 0); }
    MinDistAbsent(arcs, 0);
  }

  lemma GreedyIsNearest(inst: Instance, arcs: seq<Arc>, x: Arc)
    requires ValidInstance(inst) && GreedyRun(inst, arcs) && GreedyStep(inst, arcs, x)
    ensures NearestStep(inst, arcs, x)
  {
    hide MinDist, ChildCount, GreedyRun, IsDistance;
    OutsideTree(arcs, x.b);
    if v: nat :| v < inst.n && Outside(arcs, v) && Follows(inst, arcs, v) {
      var y := FollowerEligible(inst, arcs, v);
      assert !LessThan(y, x);
      if x.branch != 1 { OpenersLonger(inst, arcs, x); }
      OnlyLastFollowed(inst, arcs, x);
      forall w: nat | w < inst.n && Outside(arcs, w) && Follows(inst, arcs, w) ensures NoFarther(inst, x.a, x.b, w) {
        var z := FollowerEligible(inst, arcs, w);
        assert !LessThan(z, x);
      }
    } else {
      if x.branch == 1 { OnlyLastFollowed(inst, arcs, x); }
      OpenersLonger(inst, arcs, x);
      var direct := OpenerEligible(inst, arcs, x.b);
      assert !LessThan(direct, x);
      forall w: nat | w < inst.n && Outside(arcs, w) ensures NoFarther(inst, 0, x.b, w) {
        var z := OpenerEligible(inst, arcs, w);
        assert !LessThan(z, x);
      }
    }
  }

  lemma NearestIsGreedy(inst: Instance, arcs: seq<Arc>, x: Arc)
    requires ValidInstance(inst) && GreedyRun(inst, arcs) && NearestStep(inst, arcs, x)
    ensures GreedyStep(inst, arcs, x)
  {
    hide MinDist, ChildCount, GreedyRun, IsDistance;
    if v: nat :| v < inst.n && Outside(arcs, v) && Follows(inst, arcs, v) {
      var y := FollowerEligible(inst, arcs, x.b);
      assert x == y;
    } else {
      var y := OpenerEligible(inst, arcs, x.b);
      assert x == y;
    }
    forall y | Eligible(inst, arcs, y) ensures !LessThan(y, x) {
      OutsideTree(arcs, y.b);
      if y.branch == 1 {
        OnlyLastFollowed(inst, arcs, y);
        assert NoFarther(inst, x.a, x.b, y.b);
        EligibleDanger(inst, arcs, y);
      } else {
        OpenersLonger(inst, arcs, y);
        assert x.branch == 0 ==> NoFarther(inst, 0, x.b, y.b);
      }
    }
  }

  lemma EligibleDanger(inst: Instance, arcs: seq<Arc>, y: Arc)
    requires WellFormed(inst) && Eligible(inst, arcs, y)
    ensures y.danger == inst.danger[y.b][y.a]
  {
  }

  /** Always taking the least arc that could be taken, over the whole tree, is the same as growing line
      after line to the nearest stop that can keep its limit. */
  lemma {:induction false} GreedyGrowsLines(inst: Instance, arcs: seq<Arc>)
    requires ValidInstance(inst)
    ensures GreedyRun(inst, arcs) <==> NearestRun(inst, arcs)
  {
    hide GreedyStep, NearestStep, IsDistance;
    if |arcs| > 0 {
      var last := |arcs| - 1;
      GreedyGrowsLines(inst, arcs[..last]);
      assert forall k {:trigger arcs[..k]} :: 0 <= k < last ==> arcs[..last][..k] == arcs[..k];
      if GreedyRun(inst, arcs) {
        forall k | 0 <= k < last ensures GreedyStep(inst, arcs[..last][..k], arcs[..last][k]) {
          assert arcs[..last][..k] == arcs[..k];
        }
        GreedyIsNearest(inst, arcs[..last], arcs[last]);
        forall k | 0 <= k < |arcs| ensures NearestStep(inst, arcs[..k], arcs[k]) {
          assert k < last ==> arcs[..last][..k] == arcs[..k];
        }
      }
      if NearestRun(inst, arcs) {
        forall k | 0 <= k < last ensures NearestStep(inst, arcs[..last][..k], arcs[..last][k]) {
          assert arcs[..last][..k] == arcs[..k];
        }
        NearestIsGreedy(inst, arcs[..last], arcs[last]);
        forall k | 0 <= k < |arcs| ensures GreedyStep(inst, arcs[..k], arcs[k]) {
          assert k < last ==> arcs[..last][..k] == arcs[..k];
        }
      }
    }
  }

  /** Of all arcs that could be taken, one is taken that extends a line if any does, then the shortest,
      then the least dangerous. */
  lemma TakenIsLeast(inst: Instance, arcs: seq<Arc>, k: nat, y: Arc)
    requires WellFormed(inst) && GreedyRun(inst, arcs) && k < |arcs| && Eligible(inst, arcs[..k], y)
    ensures var x := arcs[k];
            && y.branch <= x.branch
            && (y.branch == x.branch ==> x.dist < y.dist || (x.dist == y.dist && x.danger <= y.danger))
  {
    assert GreedyStep(inst, arcs[..k], arcs[k]);
  }
}
