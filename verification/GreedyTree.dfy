/** The tree the solver is meant to grow, defined without any work-list: a run is greedy when each
    arc is the first, in the order of `LessThan`, of all arcs that could be taken at that point. */
module GreedyTree {
  import opened Arcs

  ghost predicate InTree(arcs: seq<Arc>, v: nat) {
    v == 0 || exists i :: 0 <= i < |arcs| && arcs[i].b == v
  }

  /** Walking distance recorded for `v` when it joined the tree; 0 for the school. */
  function MinDist(arcs: seq<Arc>, v: nat): real {
    if |arcs| == 0 then 0.0
    else if arcs[|arcs| - 1].b == v then arcs[|arcs| - 1].dist
    else MinDist(arcs[..|arcs| - 1], v)
  }

  function ChildCount(arcs: seq<Arc>, u: nat): nat {
    if |arcs| == 0 then 0
    else ChildCount(arcs[..|arcs| - 1], u) + if arcs[|arcs| - 1].a == u then 1 else 0
  }

  /** Number of arcs that opened a line. */
  function LinesOpened(arcs: seq<Arc>): nat {
    if |arcs| == 0 then 0
    else LinesOpened(arcs[..|arcs| - 1]) + if arcs[|arcs| - 1].branch == 0 then 1 else 0
  }

  /** The arc that would extend the tree from `u` to `v`. From the school every arc opens a line. */
  function Candidate(inst: Instance, arcs: seq<Arc>, u: nat, v: nat): Arc
    requires WellFormed(inst) && u < inst.n && v < inst.n
  {
    NewArc(inst, MinDist(arcs, u), u, v, u == 0)
  }

  /** `x` leads from the tree to a node outside it and does not extend a node that has a child. */
  ghost predicate Eligible(inst: Instance, arcs: seq<Arc>, x: Arc)
    requires WellFormed(inst)
  {
    && x.a < inst.n && x.b < inst.n
    && InTree(arcs, x.a) && !InTree(arcs, x.b)
    && x == Candidate(inst, arcs, x.a, x.b)
    && !(ChildCount(arcs, x.a) > 0 && x.branch == 1)
  }

  ghost predicate GreedyStep(inst: Instance, arcs: seq<Arc>, x: Arc)
    requires WellFormed(inst)
  {
    && Eligible(inst, arcs, x)
    && forall y :: Eligible(inst, arcs, y) ==> !LessThan(y, x)
  }

  ghost predicate GreedyRun(inst: Instance, arcs: seq<Arc>)
    requires WellFormed(inst)
  {
    forall k {:trigger arcs[..k]} :: 0 <= k < |arcs| ==> GreedyStep(inst, arcs[..k], arcs[k])
  }

  /** A greedy run that has visited every stop. */
  ghost predicate SpansGreedily(inst: Instance, arcs: seq<Arc>)
    requires WellFormed(inst)
  {
    GreedyRun(inst, arcs) && |arcs| == inst.n - 1
  }

  lemma GreedyAppend(inst: Instance, arcs: seq<Arc>, x: Arc)
    requires WellFormed(inst) && GreedyRun(inst, arcs) && GreedyStep(inst, arcs, x)
    ensures GreedyRun(inst, arcs + [x])
  {
    forall k | 0 <= k < |arcs + [x]| ensures GreedyStep(inst, (arcs + [x])[..k], (arcs + [x])[k]) {
      assert (arcs + [x])[..k] == arcs[..k];
      assert arcs[..|arcs|] == arcs;
    }
  }

  // ----- what the recursive counters mean, position by position

  ghost predicate DistinctStops(arcs: seq<Arc>) {
    && (forall i :: 0 <= i < |arcs| ==> arcs[i].b != 0)
    && forall i, k :: 0 <= i < k < |arcs| ==> arcs[i].b != arcs[k].b
  }

  lemma {:induction false} MinDistAt(arcs: seq<Arc>, i: nat)
    requires DistinctStops(arcs) && i < |arcs|
    ensures MinDist(arcs, arcs[i].b) == arcs[i].dist
  {
    if i < |arcs| - 1 {
      MinDistAt(arcs[..|arcs| - 1], i);
    }
  }

  lemma {:induction false} MinDistAbsent(arcs: seq<Arc>, v: nat)
    requires forall i :: 0 <= i < |arcs| ==> arcs[i].b != v
    ensures MinDist(arcs, v) == 0.0
  {
    if |arcs| > 0 {
      MinDistAbsent(arcs[..|arcs| - 1], v);
    }
  }

  lemma {:induction false} NoChild(arcs: seq<Arc>, u: nat)
    ensures ChildCount(arcs, u) == 0 <==> forall i :: 0 <= i < |arcs| ==> arcs[i].a != u
  {
    if |arcs| > 0 {
      NoChild(arcs[..|arcs| - 1], u);
    }
  }

  lemma {:induction false} AtMostOneChild(arcs: seq<Arc>, u: nat)
    requires forall i, k :: 0 <= i < k < |arcs| ==> !(arcs[i].a == u && arcs[k].a == u)
    ensures ChildCount(arcs, u) <= 1
  {
    if |arcs| > 0 {
      var rest := arcs[..|arcs| - 1];
      AtMostOneChild(rest, u);
      NoChild(rest, u);
    }
  }

  // ----- consequences of greediness

  /** Shape of a greedy run: each stop is entered once, from a node already reached, by the arc the
      instance and the distance of that node dictate. */
  lemma GreedyShape(inst: Instance, arcs: seq<Arc>, k: nat)
    requires WellFormed(inst) && GreedyRun(inst, arcs) && k < |arcs|
    ensures DistinctStops(arcs)
    ensures arcs[k].a < inst.n && 0 < arcs[k].b < inst.n && InTree(arcs[..k], arcs[k].a)
    ensures arcs[k] == NewArc(inst, MinDist(arcs, arcs[k].a), arcs[k].a, arcs[k].b, arcs[k].a == 0)
  {
    forall i, m | 0 <= i < m < |arcs| ensures arcs[i].b != arcs[m].b {
      assert GreedyStep(inst, arcs[..m], arcs[m]);
      assert arcs[..m][i].b == arcs[i].b;
    }
    forall i | 0 <= i < |arcs| ensures arcs[i].b != 0 {
      assert GreedyStep(inst, arcs[..i], arcs[i]);
    }
    assert GreedyStep(inst, arcs[..k], arcs[k]);
    var u := arcs[k].a;
    if u == 0 {
      MinDistAbsent(arcs, 0);
      MinDistAbsent(arcs[..k], 0);
    } else {
      var i :| 0 <= i < k && arcs[..k][i].b == u;
      MinDistAt(arcs, i);
      MinDistAt(arcs[..k], i);
    }
  }

  /** The school's own arc to an unvisited stop can always be taken, at the direct distance. */
  lemma SchoolArcEligible(inst: Instance, arcs: seq<Arc>, v: nat)
    requires WellFormed(inst) && v < inst.n && !InTree(arcs, v) && DistinctStops(arcs)
    ensures Eligible(inst, arcs, Candidate(inst, arcs, 0, v))
    ensures Candidate(inst, arcs, 0, v).branch == 0
    ensures Candidate(inst, arcs, 0, v).dist == inst.dist[0][v]
  {
    MinDistAbsent(arcs, 0);
  }

  /** An arc from a stop that exceeds the limit is never the least, because the school's arc to the
      same stop is shorter. */
  lemma OpeningStep(inst: Instance, arcs: seq<Arc>, x: Arc)
    requires ValidInstance(inst) && GreedyStep(inst, arcs, x) && DistinctStops(arcs)
    ensures x.branch == 0 <==> x.a == 0
  {
    var direct := Candidate(inst, arcs, 0, x.b);
    SchoolArcEligible(inst, arcs, x.b);
    LimitAboveDirect(inst.alpha, inst.dist[0][x.b]);
    assert !LessThan(direct, x);
  }

  /** When the least arc opens a line, every node without a child is too far from every stop left. */
  lemma StuckStep(inst: Instance, arcs: seq<Arc>, x: Arc, u: nat, w: nat)
    requires WellFormed(inst) && GreedyStep(inst, arcs, x) && x.branch == 0
    requires 0 < u < inst.n && InTree(arcs, u) && ChildCount(arcs, u) == 0
    requires w < inst.n && !InTree(arcs, w)
    ensures MinDist(arcs, u) + inst.dist[u][w] > inst.dist[0][w] * inst.alpha
  {
    hide MinDist, ChildCount, InTree;
    var y := Candidate(inst, arcs, u, w);
    assert y.branch == 1 ==> LessThan(y, x);
    assert y.branch == 1 ==> Eligible(inst, arcs, y);
  }

  lemma StepAt(inst: Instance, arcs: seq<Arc>, k: nat)
    requires WellFormed(inst) && GreedyRun(inst, arcs) && k < |arcs|
    ensures GreedyStep(inst, arcs[..k], arcs[k]) && DistinctStops(arcs[..k])
  {
    GreedyShape(inst, arcs, k);
  }

  /** Every line opens at the school, and no arc taken exceeds the limit of the stop it enters. */
  lemma LinesOpenAtSchool(inst: Instance, arcs: seq<Arc>, k: nat)
    requires ValidInstance(inst) && GreedyRun(inst, arcs) && k < |arcs|
    ensures arcs[k].branch == 0 <==> arcs[k].a == 0
    ensures 0 < arcs[k].b < inst.n
    ensures arcs[k].dist <= inst.dist[0][arcs[k].b] * inst.alpha
  {
    StepAt(inst, arcs, k);
    OpeningStep(inst, arcs[..k], arcs[k]);
    WithinLimit(inst, arcs[..k], arcs[k]);
  }

  lemma WithinLimit(inst: Instance, arcs: seq<Arc>, x: Arc)
    requires ValidInstance(inst) && GreedyStep(inst, arcs, x) && DistinctStops(arcs)
    ensures 0 < x.b < inst.n && x.dist <= inst.dist[0][x.b] * inst.alpha
  {
    OpeningStep(inst, arcs, x);
    LimitAboveDirect(inst.alpha, inst.dist[0][x.b]);
    MinDistAbsent(arcs, 0);
  }

  /** A stop has at most one child; only the school can have more. */
  lemma OneChildPerStop(inst: Instance, arcs: seq<Arc>, i: nat, k: nat)
    requires ValidInstance(inst) && GreedyRun(inst, arcs) && i < k < |arcs|
    requires arcs[i].a == arcs[k].a
    ensures arcs[k].a == 0
  {
    GreedyShape(inst, arcs, k);
    LinesOpenAtSchool(inst, arcs, k);
    assert GreedyStep(inst, arcs[..k], arcs[k]);
    NoChild(arcs[..k], arcs[k].a);
    assert arcs[..k][i].a == arcs[k].a;
  }

  /** Once a new line is opened, a node without a child can reach no later stop within its limit. */
  lemma StuckEnd(inst: Instance, arcs: seq<Arc>, i: nat, h: nat, k: nat)
    requires ValidInstance(inst) && GreedyRun(inst, arcs) && i < h <= k < |arcs|
    requires arcs[h].a == 0 && ChildCount(arcs[..h], arcs[i].b) == 0
    ensures arcs[i].b < inst.n && arcs[k].b < inst.n
    ensures arcs[i].dist + inst.dist[arcs[i].b][arcs[k].b] > inst.dist[0][arcs[k].b] * inst.alpha
  {
    var before := arcs[..h];
    StepAt(inst, arcs, h);
    OpeningStep(inst, before, arcs[h]);
    FreshStop(inst, arcs, h, i, k);
    StuckStep(inst, before, arcs[h], arcs[i].b, arcs[k].b);
  }

  /** Arc `i` of the first `h` led into the tree they form, which does not contain stop `k` yet. */
  lemma FreshStop(inst: Instance, arcs: seq<Arc>, h: nat, i: nat, k: nat)
    requires WellFormed(inst) && GreedyRun(inst, arcs) && i < h <= k < |arcs|
    ensures 0 < arcs[i].b < inst.n && InTree(arcs[..h], arcs[i].b)
    ensures 0 < arcs[k].b < inst.n && !InTree(arcs[..h], arcs[k].b)
    ensures MinDist(arcs[..h], arcs[i].b) == arcs[i].dist
  {
    GreedyShape(inst, arcs, i);
    GreedyShape(inst, arcs, k);
    assert arcs[..h][i] == arcs[i];
    MinDistAt(arcs[..h], i);
  }

  /** The tree is grown one line at a time: an arc that does not leave the school continues from
      the stop that was entered just before it. */
  lemma {:induction false} OneLineAtATime(inst: Instance, arcs: seq<Arc>, k: nat)
    requires ValidInstance(inst) && GreedyRun(inst, arcs) && k < |arcs| && arcs[k].a != 0
    ensures k > 0 && arcs[k].a == arcs[k - 1].b
    decreases k
  {
    var i := EnteredBefore(inst, arcs, k);
    if i < k - 1 {
      forall m | 0 <= m < k ensures arcs[m].a != arcs[i].b {
        if arcs[m].a == arcs[i].b { OneChildPerStop(inst, arcs, m, k); }
      }
      NoChild(arcs[..i + 1], arcs[i].b);
      if arcs[i + 1].a == 0 {
        StuckEnd(inst, arcs, i, i + 1, k);
        ExtendingArc(inst, arcs, i, k);
      } else {
        OneLineAtATime(inst, arcs, i + 1);
      }
      assert false;
    }
  }

  lemma EnteredBefore(inst: Instance, arcs: seq<Arc>, k: nat) returns (i: nat)
    requires WellFormed(inst) && GreedyRun(inst, arcs) && k < |arcs| && arcs[k].a != 0
    ensures i < k && arcs[i].b == arcs[k].a
  {
    GreedyShape(inst, arcs, k);
    i :| 0 <= i < k && arcs[..k][i].b == arcs[k].a;
  }

  /** An arc that extends a line is as long as the way to its start plus one step. */
  lemma ExtendingArc(inst: Instance, arcs: seq<Arc>, i: nat, k: nat)
    requires ValidInstance(inst) && GreedyRun(inst, arcs) && i < k < |arcs| && arcs[k].a == arcs[i].b
    ensures arcs[i].b < inst.n && 0 < arcs[k].b < inst.n
    ensures arcs[k].dist == arcs[i].dist + inst.dist[arcs[i].b][arcs[k].b]
    ensures arcs[k].dist <= inst.dist[0][arcs[k].b] * inst.alpha
  {
    GreedyShape(inst, arcs, k);
    MinDistAt(arcs, i);
    LinesOpenAtSchool(inst, arcs, k);
  }

  /** The solver's counter of lines is the number of children of the school. */
  lemma {:induction false} ChildrenOfSchool(inst: Instance, arcs: seq<Arc>)
    requires ValidInstance(inst) && GreedyRun(inst, arcs)
    ensures LinesOpened(arcs) == ChildCount(arcs, 0)
  {
    if |arcs| > 0 {
      var rest := arcs[..|arcs| - 1];
      assert GreedyRun(inst, rest) by {
        forall k | 0 <= k < |rest| ensures GreedyStep(inst, rest[..k], rest[k]) {
          assert rest[..k] == arcs[..k];
        }
      }
      ChildrenOfSchool(inst, rest);
      LinesOpenAtSchool(inst, arcs, |arcs| - 1);
    }
  }
}
