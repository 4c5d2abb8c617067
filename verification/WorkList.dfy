/** The solver's list of queued arcs, and why popping it takes greedy steps although it also holds
    stale arcs and is sorted only after something was queued. */
module WorkList {
  import opened Arcs
  import opened GreedyTree
  import opened Flags

  /** The program's arrays describe the tree made of `arcs`. */
  ghost predicate TreeArrays(inst: Instance, arcs: seq<Arc>,
                             inTree: seq<bool>, branched: seq<int>, minDist: seq<real>)
  {
    && |inTree| == |branched| == |minDist| == inst.n
    && (forall v: nat :: v < inst.n ==> (inTree[v] <==> InTree(arcs, v)))
    && (forall v: nat :: v < inst.n ==> branched[v] == ChildCount(arcs, v))
    && (forall v: nat :: v < inst.n ==> minDist[v] == MinDist(arcs, v))
  }

  /** Nothing but candidates of tree nodes is queued ... */
  ghost predicate OnlyCandidates(inst: Instance, arcs: seq<Arc>, queue: seq<Arc>)
    requires WellFormed(inst)
  {
    forall x :: x in queue ==>
      x.a < inst.n && x.b < inst.n && InTree(arcs, x.a) && x == Candidate(inst, arcs, x.a, x.b)
  }

  /** ... and every arc that could be taken is. */
  ghost predicate AllEligible(inst: Instance, arcs: seq<Arc>, queue: seq<Arc>)
    requires WellFormed(inst)
  {
    forall y :: Eligible(inst, arcs, y) ==> y in queue
  }

  /** What the solver queues after a node `i` at distance `base`: one arc to each of the first
      `bound` nodes that is not in the tree. */
  function NewArcs(inst: Instance, inTree: seq<bool>, base: real, i: nat, allNew: bool, bound: nat): seq<Arc>
    requires WellFormed(inst) && |inTree| == inst.n && i < inst.n && bound <= inst.n
  {
    if bound == 0 then []
    else
      NewArcs(inst, inTree, base, i, allNew, bound - 1) +
      if inTree[bound - 1] then [] else [NewArc(inst, base, i, bound - 1, allNew)]
  }

  lemma {:induction false} NewArcsMembers(inst: Instance, inTree: seq<bool>, base: real, i: nat, allNew: bool, bound: nat)
    requires WellFormed(inst) && |inTree| == inst.n && i < inst.n && bound <= inst.n
    ensures forall x :: x in NewArcs(inst, inTree, base, i, allNew, bound) <==>
      x.b < bound && !inTree[x.b] && x == NewArc(inst, base, i, x.b, allNew)
  {
    if bound > 0 {
      NewArcsMembers(inst, inTree, base, i, allNew, bound - 1);
    }
  }

  ghost predicate InNodeOrder(arcs: seq<Arc>, bound: nat) {
    && (forall k :: 0 <= k < |arcs| ==> arcs[k].b < bound)
    && (forall k, m :: 0 <= k < m < |arcs| ==> arcs[k].b < arcs[m].b)
  }

  /** They are queued in the order of the nodes they enter. */
  lemma {:induction false} NewArcsInOrder(inst: Instance, inTree: seq<bool>, base: real, i: nat, allNew: bool, bound: nat)
    requires WellFormed(inst) && |inTree| == inst.n && i < inst.n && bound <= inst.n
    ensures InNodeOrder(NewArcs(inst, inTree, base, i, allNew, bound), bound)
  {
    if bound > 0 {
      NewArcsInOrder(inst, inTree, base, i, allNew, bound - 1);
    }
  }

  lemma {:induction false} NewArcsCount(inst: Instance, inTree: seq<bool>, base: real, i: nat, allNew: bool, bound: nat)
    requires WellFormed(inst) && |inTree| == inst.n && i < inst.n && bound <= inst.n
    ensures |NewArcs(inst, inTree, base, i, allNew, bound)| == Unvisited(inTree, bound)
  {
    if bound > 0 {
      NewArcsCount(inst, inTree, base, i, allNew, bound - 1);
    }
  }

  // ----- steps of the main loop

  lemma LastIsLeast(queue: seq<Arc>, y: Arc)
    requires Ordered(queue) && y in queue
    ensures !LessThan(y, queue[|queue| - 1])
  {
    OrderIsStrictWeak(y, y, y);
  }

  lemma OrderedPrefix(queue: seq<Arc>)
    requires Ordered(queue) && |queue| > 0
    ensures Ordered(queue[..|queue| - 1])
  {
  }

  lemma InitAppend(arcs: seq<Arc>, x: Arc)
    ensures (arcs + [x])[..|arcs + [x]| - 1] == arcs
    ensures forall v: nat :: InTree(arcs + [x], v) <==> InTree(arcs, v) || x.b == v
  {
    forall v: nat ensures InTree(arcs + [x], v) <==> InTree(arcs, v) || x.b == v {
      if InTree(arcs, v) && v != 0 {
        var i :| 0 <= i < |arcs| && arcs[i].b == v;
        assert (arcs + [x])[i].b == v;
      }
      if x.b == v {
        assert (arcs + [x])[|arcs|].b == v;
      }
    }
  }

  lemma VisitKeepsArrays(inst: Instance, arcs: seq<Arc>, x: Arc,
                         inTree: seq<bool>, branched: seq<int>, minDist: seq<real>)
    requires TreeArrays(inst, arcs, inTree, branched, minDist)
    requires x.a < inst.n && x.b < inst.n
    ensures TreeArrays(inst, arcs + [x], inTree[x.b := true],
                       branched[x.a := branched[x.a] + 1], minDist[x.b := x.dist])
  {
    InitAppend(arcs, x);
  }

  /** The tree part of the program's state: a greedy run, and counters and arrays that describe it. */
  ghost predicate TreeFacts(inst: Instance, arcs: seq<Arc>, branches: nat,
                            inTree: seq<bool>, branched: seq<int>, minDist: seq<real>)
    requires WellFormed(inst)
  {
    && TreeArrays(inst, arcs, inTree, branched, minDist)
    && GreedyRun(inst, arcs)
    && branches == LinesOpened(arcs)
    && |arcs| < inst.n
    && Unvisited(inTree, inst.n) == inst.n - |arcs| - 1
  }

  /** The guard of the main loop tests membership and the number of children. */
  lemma GuardMeaning(inst: Instance, arcs: seq<Arc>, branches: nat,
                     inTree: seq<bool>, branched: seq<int>, minDist: seq<real>, x: Arc)
    requires WellFormed(inst) && TreeFacts(inst, arcs, branches, inTree, branched, minDist)
    requires x.a < inst.n && x.b < inst.n
    ensures |inTree| == |branched| == inst.n
    ensures inTree[x.b] <==> InTree(arcs, x.b)
    ensures branched[x.a] == ChildCount(arcs, x.a)
  {
  }

  lemma VisitKeepsFacts(inst: Instance, arcs: seq<Arc>, x: Arc, branches: nat,
                        inTree: seq<bool>, branched: seq<int>, minDist: seq<real>)
    requires WellFormed(inst) && TreeFacts(inst, arcs, branches, inTree, branched, minDist)
    requires GreedyStep(inst, arcs, x) && |arcs| + 1 < inst.n
    ensures TreeFacts(inst, arcs + [x], if x.branch == 0 then branches + 1 else branches, inTree[x.b := true],
                      branched[x.a := branched[x.a] + 1], minDist[x.b := x.dist])
  {
    GreedyAppend(inst, arcs, x);
    VisitKeepsArrays(inst, arcs, x, inTree, branched, minDist);
    UnvisitedAfterVisit(inTree, x.b, inst.n);
    InitAppend(arcs, x);
  }

  /** An arc popped and not taken could not be taken later either, so dropping it is harmless. */
  lemma RejectedArc(inst: Instance, arcs: seq<Arc>, queue: seq<Arc>)
    requires WellFormed(inst) && OnlyCandidates(inst, arcs, queue) && AllEligible(inst, arcs, queue)
    requires |queue| > 0
    requires var x := queue[|queue| - 1]; InTree(arcs, x.b) || (ChildCount(arcs, x.a) > 0 && x.branch == 1)
    ensures OnlyCandidates(inst, arcs, queue[..|queue| - 1])
    ensures AllEligible(inst, arcs, queue[..|queue| - 1])
  {
    var rest := queue[..|queue| - 1];
    assert queue == rest + [queue[|queue| - 1]];
    forall y | Eligible(inst, arcs, y) ensures y in rest {
      assert y in queue;
    }
  }

  /** The arc on top of an ordered work-list is a greedy step as soon as it passes the guard. */
  lemma AcceptedArc(inst: Instance, arcs: seq<Arc>, queue: seq<Arc>)
    requires WellFormed(inst) && OnlyCandidates(inst, arcs, queue) && AllEligible(inst, arcs, queue)
    requires |queue| > 0 && Ordered(queue)
    requires var x := queue[|queue| - 1]; !InTree(arcs, x.b) && !(ChildCount(arcs, x.a) > 0 && x.branch == 1)
    ensures GreedyStep(inst, arcs, queue[|queue| - 1])
  {
    var x := queue[|queue| - 1];
    assert x in queue;
    forall y | Eligible(inst, arcs, y) ensures !LessThan(y, x) {
      LastIsLeast(queue, y);
    }
  }

  lemma CandidateKept(inst: Instance, arcs: seq<Arc>, x: Arc, u: nat, v: nat)
    requires WellFormed(inst) && u < inst.n && v < inst.n && x.b != u
    ensures Candidate(inst, arcs + [x], u, v) == Candidate(inst, arcs, u, v)
  {
    InitAppend(arcs, x);
  }

  lemma StillEligible(inst: Instance, arcs: seq<Arc>, x: Arc, y: Arc)
    requires WellFormed(inst) && !InTree(arcs, x.b) && x.b < inst.n
    requires Eligible(inst, arcs + [x], y) && y.a != x.b
    ensures Eligible(inst, arcs, y) && y != x
  {
    InitAppend(arcs, x);
    CandidateKept(inst, arcs, x, y.a, y.b);
  }

  /** Taking `x` and queueing the arcs of the node it enters keeps both halves. */
  lemma VisitKeepsQueue(inst: Instance, arcs: seq<Arc>, x: Arc, rest: seq<Arc>, inTree: seq<bool>)
    requires WellFormed(inst) && x.b < inst.n && !InTree(arcs, x.b)
    requires OnlyCandidates(inst, arcs, rest) && AllEligible(inst, arcs, rest + [x])
    requires |inTree| == inst.n && forall v: nat :: v < inst.n ==> (inTree[v] <==> InTree(arcs + [x], v))
    ensures OnlyCandidates(inst, arcs + [x], rest + NewArcs(inst, inTree, x.dist, x.b, false, inst.n))
    ensures AllEligible(inst, arcs + [x], rest + NewArcs(inst, inTree, x.dist, x.b, false, inst.n))
  {
    var added := NewArcs(inst, inTree, x.dist, x.b, false, inst.n);
    NewArcsMembers(inst, inTree, x.dist, x.b, false, inst.n);
    InitAppend(arcs, x);
    forall y | y in rest + added
      ensures y.a < inst.n && y.b < inst.n && InTree(arcs + [x], y.a) && y == Candidate(inst, arcs + [x], y.a, y.b)
    {
      if y in rest {
        CandidateKept(inst, arcs, x, y.a, y.b);
      }
    }
    forall y | Eligible(inst, arcs + [x], y) ensures y in rest + added {
      if y.a != x.b {
        StillEligible(inst, arcs, x, y);
        assert y in rest + [x];
      }
    }
  }

  /** The first refill queues exactly the school's arcs, which are all that can be taken. */
  lemma RefillFromSchool(inst: Instance, inTree: seq<bool>)
    requires WellFormed(inst) && |inTree| == inst.n
    requires forall v: nat :: v < inst.n ==> (inTree[v] <==> InTree([], v))
    ensures OnlyCandidates(inst, [], NewArcs(inst, inTree, 0.0, 0, true, inst.n))
    ensures AllEligible(inst, [], NewArcs(inst, inTree, 0.0, 0, true, inst.n))
  {
    NewArcsMembers(inst, inTree, 0.0, 0, true, inst.n);
  }

  /** While a stop is unvisited the work-list holds the school's arc to it. */
  lemma SchoolArcQueued(inst: Instance, arcs: seq<Arc>, queue: seq<Arc>, v: nat)
    requires WellFormed(inst) && GreedyRun(inst, arcs) && AllEligible(inst, arcs, queue)
    requires v < inst.n && !InTree(arcs, v)
    ensures Candidate(inst, arcs, 0, v) in queue
  {
    if |arcs| > 0 { GreedyShape(inst, arcs, 0); }
    SchoolArcEligible(inst, arcs, v);
  }

  /** Arcs still to be queued once `visited` of `n` nodes are in the tree. */
  function StillToQueue(n: nat, visited: nat): nat
    requires visited <= n
    decreases n - visited
  {
    if visited == n then 0 else n - visited - 1 + StillToQueue(n, visited + 1)
  }
}
