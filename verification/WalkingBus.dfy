/** The whole program against its judge. */
module WalkingBus {
  import opened Arcs
  import opened GreedyTree
  import opened Checker
  import opened Walks
  import opened Sums
  import opened Counting
  import opened DangerPass
  import opened PassSafety
  import opened LeafMoves
  import opened LeafChoice
  import opened LineGrowth
  import opened FirstPass

  lemma WrittenInRange(inst: Instance, first: seq<Arc>, minDist: seq<real>, st: PassState, done: nat)
    requires PassInv(inst, first, minDist, st, done)
    ensures InRange(inst.n, Written(st.arcs))
  {
    PassInvInBounds(inst, first, minDist, st, done);
  }

  /** An arc whose start has an arc of its own that was not moved: a start has a child, and a moved
      stop has none. */
  lemma StartsUnmoved(inst: Instance, first: seq<Arc>, minDist: seq<real>, st: PassState, done: nat, k: nat, m: nat)
    requires PassInv(inst, first, minDist, st, done) && k < |first| && m < |first|
    requires st.arcs[k].a == first[m].b
    ensures st.arcs[m] == first[m]
  {
    NoChild(st.arcs, first[m].b);
  }

  lemma OneStepFurther(costs: seq<seq<real>>, p: seq<int>, v: nat, u: nat, steps: nat)
    requires IsMatrix(costs, |p|) && 0 < v < |p| && u < |p| && p[v] == u && PathLength(costs, p, u, steps).Some?
    ensures PathLength(costs, p, v, steps + 1) == Some(costs[v][u] + PathLength(costs, p, u, steps).value)
  {
  }

  lemma StopEntered(inst: Instance, first: seq<Arc>, minDist: seq<real>, st: PassState, done: nat, u: nat)
    returns (m: nat)
    requires PassInv(inst, first, minDist, st, done) && 1 <= u < inst.n
    ensures m < |first| && first[m].b == st.arcs[m].b == u
  {
    PassInvInBounds(inst, first, minDist, st, done);
    m := EveryStopEntered(st.arcs, inst.n, u);
  }

  lemma BothWays(inst: Instance, i: nat, j: nat)
    requires ValidInstance(inst) && i < inst.n && j < inst.n
    ensures inst.dist[i][j] == inst.dist[j][i]
  {
  }

  /** From a stop that was not moved the walk is the one the first pass measured. */
  lemma {:induction false} UnmovedWalk(inst: Instance, first: seq<Arc>, minDist: seq<real>, st: PassState, done: nat, k: nat)
    requires PassInv(inst, first, minDist, st, done) && k < |first| && st.arcs[k] == first[k]
    requires InRange(inst.n, Written(st.arcs))
    ensures PathLength(inst.dist, Targets(inst.n, Written(st.arcs)), first[k].b, k + 1) == Some(first[k].dist)
    decreases k
  {
    hide SpansGreedily, Targets, Moved, ChildCount, MinDist, IsDistance, Written;
    var p := Targets(inst.n, Written(st.arcs));
    PassInvInBounds(inst, first, minDist, st, done);
    FirstArc(inst, first, minDist, k);
    TargetAt(inst.n, st.arcs, k);
    if first[k].a != 0 {
      StartsUnmoved(inst, first, minDist, st, done, k, k - 1);
      UnmovedWalk(inst, first, minDist, st, done, k - 1);
    }
    BothWays(inst, first[k].b, first[k].a);
    OneStepFurther(inst.dist, p, first[k].b, first[k].a, k);
  }

  lemma RecordedLength(inst: Instance, first: seq<Arc>, minDist: seq<real>, st: PassState, done: nat, k: nat)
    requires PassInv(inst, first, minDist, st, done) && k < |first|
    requires InRange(inst.n, Written(st.arcs))
    ensures 0 < first[k].b < inst.n
    ensures PathLength(inst.dist, Targets(inst.n, Written(st.arcs)), first[k].b, inst.n) == Some(st.arcs[k].dist)
    ensures st.arcs[k].dist <= inst.dist[0][first[k].b] * inst.alpha
  {
    hide SpansGreedily, Targets, ChildCount, MinDist, IsDistance, Written, PathLength;
    var p := Targets(inst.n, Written(st.arcs));
    var v := first[k].b;
    FirstArc(inst, first, minDist, k);
    if st.arcs[k] == first[k] {
      UnmovedWalk(inst, first, minDist, st, done, k);
      WalkDecided(inst.dist, p, v, k + 1);
    } else {
      var u := st.arcs[k].a;
      PassInvInBounds(inst, first, minDist, st, done);
      var m := StopEntered(inst, first, minDist, st, done, u);
      StartsUnmoved(inst, first, minDist, st, done, k, m);
      UnmovedWalk(inst, first, minDist, st, done, m);
      FirstArc(inst, first, minDist, m);
      TargetAt(inst.n, st.arcs, k);
      BothWays(inst, u, v);
      OneStepFurther(inst.dist, p, v, u, m + 1);
      WalkDecided(inst.dist, p, v, m + 2);
    }
  }

  /** After any number of moves the recorded distance of a stop is the length of its walk to the school,
      and within its limit. */
  lemma RecordedIsWalked(inst: Instance, first: seq<Arc>, minDist: seq<real>, st: PassState, done: nat, k: nat)
    requires PassInv(inst, first, minDist, st, done) && k < |first|
    ensures 0 < first[k].b < inst.n
    ensures exists q :: IsWalk(Written(st.arcs), first[k].b, q) && InCosts(inst.dist, q) &&
                        WalkLength(inst.dist, q) == st.arcs[k].dist
    ensures st.arcs[k].dist <= inst.dist[0][first[k].b] * inst.alpha
  {
    hide SpansGreedily, Targets, ChildCount, MinDist, IsDistance, Written, IsWalk, WalkAlong;
    WrittenInRange(inst, first, minDist, st, done);
    PassInvInBounds(inst, first, minDist, st, done);
    WrittenClean(st.arcs);
    RecordedLength(inst, first, minDist, st, done, k);
    var q := WalkOfPath(inst.dist, Targets(inst.n, Written(st.arcs)), first[k].b, inst.n);
    WalksFollowTargets(inst.n, Written(st.arcs), first[k].b, q);
  }

  lemma SchoolIsEntered(inst: Instance, first: seq<Arc>, minDist: seq<real>, st: PassState, done: nat)
    requires PassInv(inst, first, minDist, st, done) && inst.n > 1
    ensures ChildCount(st.arcs, 0) > 0
  {
    FirstArc(inst, first, minDist, 0);
    if st.arcs[0] == first[0] {
      NoChild(st.arcs, 0);
    } else {
      SchoolKeepsAChild(inst, first, minDist, st, done, first[0].b);
    }
  }

  /** The judge accepts the tree after any number of handled arcs, the first pass included, and counts
      as many leaves as the school has children. */
  lemma AcceptedThroughout(inst: Instance, first: seq<Arc>, minDist: seq<real>, st: PassState, done: nat)
    requires PassInv(inst, first, minDist, st, done)
    ensures InRange(inst.n, Written(st.arcs))
    ensures Accepts(inst.n, inst.alpha, inst.dist, Written(st.arcs)) <==> inst.n > 1
    ensures Leaves(Written(st.arcs), inst.n) == ChildCount(st.arcs, 0)
  {
    var sol := Written(st.arcs);
    WrittenInRange(inst, first, minDist, st, done);
    PassInvInBounds(inst, first, minDist, st, done);
    LeavesAreLines(st.arcs, inst.n);
    WrittenClean(st.arcs);
    InCountIsChildCount(st.arcs, 0);
    InCountZero(sol, 0);
    forall v: nat | 1 <= v < inst.n
      ensures LineFrom(sol, v) && WalkWithin(inst.n, inst.alpha, inst.dist, sol, v)
    {
      StopAccepted(inst, first, minDist, st, done, v);
    }
    if inst.n > 1 {
      SchoolIsEntered(inst, first, minDist, st, done);
    } else {
      assert st.arcs == [];
    }
  }

  lemma FirstAccepted(inst: Instance, first: seq<Arc>, minDist: seq<real>)
    requires FirstPassDone(inst, first, minDist)
    ensures InRange(inst.n, Written(first))
    ensures Accepts(inst.n, inst.alpha, inst.dist, Written(first)) <==> inst.n > 1
    ensures Leaves(Written(first), inst.n) == LinesOpened(first)
  {
    var branched := seq(inst.n, v requires 0 <= v < inst.n => ChildCount(first, v));
    PassStarts(inst, first, minDist, branched);
    AcceptedThroughout(inst, first, minDist, PassState(first, branched), 0);
    ChildrenOfSchool(inst, first);
  }

  lemma StopAccepted(inst: Instance, first: seq<Arc>, minDist: seq<real>, st: PassState, done: nat, v: nat)
    requires PassInv(inst, first, minDist, st, done) && 1 <= v < inst.n
    requires InRange(inst.n, Written(st.arcs))
    ensures LineFrom(Written(st.arcs), v)
    ensures WalkWithin(inst.n, inst.alpha, inst.dist, Written(st.arcs), v)
  {
    hide GreedyRun, Targets, ChildCount, MinDist, IsDistance, Written, PathLength, WalkWithin, Clean, LineFrom, Moved;
    PassInvInBounds(inst, first, minDist, st, done);
    var k := EveryStopEntered(st.arcs, inst.n, v);
    WrittenClean(st.arcs);
    WrittenFrom(st.arcs, k);
    RecordedLength(inst, first, minDist, st, done, k);
    WalksMeasured(inst.n, inst.alpha, inst.dist, Written(st.arcs), v);
    BothWays(inst, 0, v);
  }

  // ----- what the second pass gains

  /** Number of stops whose arc left the school before and leaves another stop now. */
  function MovedOff(first: seq<Arc>, arcs: seq<Arc>): nat
    requires |first| == |arcs|
  {
    if |arcs| == 0 then 0
    else
      var last := |arcs| - 1;
      MovedOff(first[..last], arcs[..last]) + if first[last].a == 0 && arcs[last].a != 0 then 1 else 0
  }

  lemma {:induction false} LinesLost(first: seq<Arc>, arcs: seq<Arc>)
    requires |first| == |arcs|
    requires forall k :: 0 <= k < |arcs| ==> arcs[k].a == 0 ==> first[k].a == 0
    ensures ChildCount(arcs, 0) + MovedOff(first, arcs) == ChildCount(first, 0)
  {
    if |arcs| > 0 {
      LinesLost(first[..|arcs| - 1], arcs[..|arcs| - 1]);
    }
  }

  lemma {:induction false} RecordedIsTotal(danger: seq<seq<real>>, n: nat, arcs: seq<Arc>)
    requires IsMatrix(danger, n) && InRange(n, Written(arcs))
    requires forall k :: 0 <= k < |arcs| ==>
               arcs[k].b < n && arcs[k].a < n && arcs[k].danger == danger[arcs[k].b][arcs[k].a]
    ensures DangerTotal(danger, n, Written(arcs)) == RecordedDanger(arcs)
  {
    if |arcs| > 0 {
      WrittenPrefix(arcs);
      RecordedIsTotal(danger, n, arcs[..|arcs| - 1]);
    }
  }

  /** The judge's figures after any number of moves, in terms of the first tree: each leaf moved off the
      school removes a leaf, and the judge's danger total is the sum of the recorded dangers. */
  lemma JudgedFigures(inst: Instance, first: seq<Arc>, minDist: seq<real>, st: PassState, done: nat)
    requires PassInv(inst, first, minDist, st, done)
    ensures InRange(inst.n, Written(st.arcs))
    ensures Leaves(Written(st.arcs), inst.n) + MovedOff(first, st.arcs) == LinesOpened(first)
    ensures DangerTotal(inst.danger, inst.n, Written(st.arcs)) == RecordedDanger(st.arcs)
  {
    hide ChildCount, MinDist, IsDistance, Written, Accepts, Leaves, LinesOpened, InRange, DangerTotal, RecordedDanger;
    AcceptedThroughout(inst, first, minDist, st, done);
    ChildrenOfSchool(inst, first);
    LinesLost(first, st.arcs);
    forall k: nat | k < |first|
      ensures first[k].a < inst.n && first[k].b < inst.n && first[k].danger == inst.danger[first[k].b][first[k].a]
    {
      FirstArc(inst, first, minDist, k);
    }
    RecordedIsTotal(inst.danger, inst.n, st.arcs);
  }

  /** The danger the judge sees after the pass is that of the first tree less the decrease of every
      single replacement. Each decrease is positive, and there is none only if the tree stays. */
  lemma PassGains(inst: Instance, first: seq<Arc>, minDist: seq<real>, start: PassState, bound: nat)
    requires PassInv(inst, first, minDist, start, 0) && InBounds(inst, minDist, start) && bound <= |first|
    requires start.arcs == first
    ensures InRange(inst.n, Written(first)) && InRange(inst.n, Written(Pass(inst, minDist, start, bound).arcs))
    ensures var arcs, d := Pass(inst, minDist, start, bound).arcs, PassDecreases(inst, minDist, start, bound);
            && DangerTotal(inst.danger, inst.n, Written(arcs)) ==
               DangerTotal(inst.danger, inst.n, Written(first)) - Sum(d)
            && (forall k :: 0 <= k < |d| ==> d[k] > 0.0)
            && (d == [] <==> arcs == first)
  {
    hide PassInv, InBounds, Written, InRange, DangerTotal, RecordedDanger, Leaves, MovedOff, PassDecreases;
    PassKeepsInv(inst, first, minDist, start, bound);
    JudgedFigures(inst, first, minDist, start, 0);
    JudgedFigures(inst, first, minDist, Pass(inst, minDist, start, bound), bound);
    PassesDecrease(inst, minDist, start, bound);
  }

  // ----- the program

  /** Adds up the danger of the selected arcs from the matrix. */
  method TotalDanger(inst: Instance, mspArcs: array<Arc>, mspArcsCount: nat) returns (total: real)
    requires mspArcsCount <= mspArcs.Length && WellFormed(inst)
    requires InRange(inst.n, Written(mspArcs[..mspArcsCount]))
    ensures total == DangerTotal(inst.danger, inst.n, Written(mspArcs[..mspArcsCount]))
  {
    ghost var sol := Written(mspArcs[..mspArcsCount]);
    total := 0.0;
    for i := 0 to mspArcsCount
      invariant total == DangerTotal(inst.danger, inst.n, sol[..i])
    {
      assert sol[..i + 1][..i] == sol[..i] && sol[i] == (mspArcs[i].b, mspArcs[i].a);
      total := total + inst.danger[mspArcs[i].b][mspArcs[i].a];
    }
    assert sol[..mspArcsCount] == sol;
  }

  /** Writes the solution file. */
  method WriteSolution(mspArcs: array<Arc>, mspArcsCount: nat) returns (sol: Solution)
    requires mspArcsCount <= mspArcs.Length
    ensures sol == Written(mspArcs[..mspArcsCount])
  {
    sol := [];
    for i := 0 to mspArcsCount
      invariant |sol| == i && forall k :: 0 <= k < i ==> sol[k] == (mspArcs[k].b, mspArcs[k].a)
    {
      sol := sol + [(mspArcs[i].b, mspArcs[i].a)];
    }
  }

  /** The tree of the second pass, as the tree of the first determines it. */
  ghost function SecondPass(inst: Instance, first: seq<Arc>): (final: seq<Arc>)
    requires WellFormed(inst) && InRange(inst.n, Written(first))
    ensures |final| == |first| && InRange(inst.n, Written(final))
  {
    WrittenBounds(inst.n, first);
    var final := Pass(inst, Distances(inst, first), AfterFirst(inst, first), |first|).arcs;
    WrittenBounds(inst.n, final);
    final
  }

  ghost function Distances(inst: Instance, first: seq<Arc>): seq<real> {
    seq(inst.n, v requires 0 <= v < inst.n => MinDist(first, v))
  }

  ghost function Children(inst: Instance, first: seq<Arc>): seq<int> {
    seq(inst.n, v requires 0 <= v < inst.n => ChildCount(first, v))
  }

  lemma WrittenBounds(n: nat, arcs: seq<Arc>)
    ensures InRange(n, Written(arcs)) <==> forall k :: 0 <= k < |arcs| ==> arcs[k].a < n && arcs[k].b < n
  {
    forall k | 0 <= k < |arcs| ensures Written(arcs)[k] == (arcs[k].b, arcs[k].a) {}
  }

  lemma GreedyInRange(inst: Instance, first: seq<Arc>)
    requires WellFormed(inst) && GreedyRun(inst, first)
    ensures InRange(inst.n, Written(first))
  {
    forall k: nat | k < |first| ensures first[k].a < inst.n && first[k].b < inst.n {
      GreedyShape(inst, first, k);
    }
    WrittenBounds(inst.n, first);
  }

  /** Both passes. `first` is the tree of the first pass. */
  method Solve(inst: Instance)
    returns (sol: Solution, maxBranches: nat, firstDanger: real, minDangerousness: real, ghost first: seq<Arc>)
    requires WellFormed(inst)
    ensures SpansGreedily(inst, first) && InRange(inst.n, Written(first))
    ensures sol == Written(SecondPass(inst, first))
    ensures maxBranches == LinesOpened(first)
    ensures firstDanger == DangerTotal(inst.danger, inst.n, Written(first))
    ensures minDangerousness == DangerTotal(inst.danger, inst.n, sol)
  {
    hide ChildCount, MinDist, IsDistance, Written, LinesOpened, DangerTotal;
    var mspArcs, mspArcsCount, branches, branched, minDist, queued, iterations, refills := BuildTree(inst);
    first := mspArcs[..mspArcsCount];
    GreedyInRange(inst, first);
    WrittenBounds(inst.n, first);
    assert minDist[..] == Distances(inst, first) && branched[..] == Children(inst, first);
    maxBranches := branches;
    firstDanger := TotalDanger(inst, mspArcs, mspArcsCount);
    MinimizeDanger(inst, minDist, mspArcs, mspArcsCount, branched);
    minDangerousness := TotalDanger(inst, mspArcs, mspArcsCount);
    sol := WriteSolution(mspArcs, mspArcsCount);
  }

  /** The state in which the second pass begins. */
  ghost function AfterFirst(inst: Instance, first: seq<Arc>): PassState {
    PassState(first, Children(inst, first))
  }

  lemma SecondPassStarts(inst: Instance, first: seq<Arc>)
    requires ValidInstance(inst) && SpansGreedily(inst, first)
    ensures PassInv(inst, first, Distances(inst, first), AfterFirst(inst, first), 0)
    ensures InBounds(inst, Distances(inst, first), AfterFirst(inst, first))
  {
    hide SpansGreedily, ChildCount, MinDist, IsDistance, PassInv, InBounds;
    PassStarts(inst, first, Distances(inst, first), Children(inst, first));
    PassInvInBounds(inst, first, Distances(inst, first), AfterFirst(inst, first), 0);
  }

  /** On true distances and with a limit of at least the direct walk, the judge accepts both trees as
      soon as there is a stop. Its leaf count for the first is the number of lines the program counts;
      for the second it is smaller by the stops moved off the school. The total danger drops by the
      decreases of the single replacements, each of them positive. */
  lemma BothPassesAccepted(inst: Instance, first: seq<Arc>)
    requires ValidInstance(inst) && SpansGreedily(inst, first)
    ensures InBounds(inst, Distances(inst, first), AfterFirst(inst, first))
    ensures InRange(inst.n, Written(first))
    ensures Accepts(inst.n, inst.alpha, inst.dist, Written(first)) <==> inst.n > 1
    ensures Leaves(Written(first), inst.n) == LinesOpened(first)
    ensures var final := SecondPass(inst, first);
            var d := PassDecreases(inst, Distances(inst, first), AfterFirst(inst, first), |first|);
            && (Accepts(inst.n, inst.alpha, inst.dist, Written(final)) <==> inst.n > 1)
            && Leaves(Written(final), inst.n) == LinesOpened(first) - MovedOff(first, final)
            && DangerTotal(inst.danger, inst.n, Written(final)) ==
               DangerTotal(inst.danger, inst.n, Written(first)) - Sum(d)
            && (forall k :: 0 <= k < |d| ==> d[k] > 0.0)
            && (d == [] <==> final == first)
  {
    hide SpansGreedily, ChildCount, MinDist, IsDistance, Written, Accepts, Leaves, LinesOpened, InRange, DangerTotal,
      PassInv, InBounds, PassDecreases, MovedOff, Sum;
    var minDist, start := Distances(inst, first), AfterFirst(inst, first);
    FirstAccepted(inst, first, minDist);
    SecondPassStarts(inst, first);
    PassKeepsInv(inst, first, minDist, start, |first|);
    var st := Pass(inst, minDist, start, |first|);
    AcceptedThroughout(inst, first, minDist, st, |first|);
    JudgedFigures(inst, first, minDist, st, |first|);
    PassGains(inst, first, minDist, start, |first|);
  }

  /** The second pass ends with the one tree in which every arc took its turn: a leaf makes the least
      dangerous move that is open to it when its turn comes, if that is an improvement. */
  lemma SecondPassTakesTurns(inst: Instance, first: seq<Arc>, final: seq<Arc>)
    requires ValidInstance(inst) && SpansGreedily(inst, first)
    ensures InRange(inst.n, Written(first))
    ensures TakesTurns(inst, Distances(inst, first), first, final) <==> final == SecondPass(inst, first)
    ensures forall m: nat :: m < |first| ==>
              0 < first[m].b < inst.n && Distances(inst, first)[first[m].b] == first[m].dist
  {
    hide ChildCount, MinDist, PassInv, InBounds, TakesTurns, IsDistance, GreedyRun;
    SecondPassStarts(inst, first);
    GreedyInRange(inst, first);
    PassTakesTurns(inst, first, Distances(inst, first), AfterFirst(inst, first), final);
    forall m: nat | m < |first| ensures 0 < first[m].b < inst.n && Distances(inst, first)[first[m].b] == first[m].dist {
      FirstArc(inst, first, Distances(inst, first), m);
    }
  }

  lemma {:induction false} NoneMovedOff(first: seq<Arc>, arcs: seq<Arc>)
    requires |first| == |arcs|
    ensures MovedOff(first, arcs) == 0 <==> forall k :: 0 <= k < |arcs| && first[k].a == 0 ==> arcs[k].a == 0
  {
    if |arcs| > 0 {
      NoneMovedOff(first[..|arcs| - 1], arcs[..|arcs| - 1]);
    }
  }

  /** The number of leaves the program prints at the end is the judge's count exactly when the pass
      passes over every arc that leaves the school: when it comes to such an arc, the stop has a child,
      or no leaf is less dangerous for it and near enough. */
  lemma ReportedLeavesRight(inst: Instance, first: seq<Arc>)
    requires ValidInstance(inst) && SpansGreedily(inst, first)
    ensures InRange(inst.n, Written(first)) && InBounds(inst, Distances(inst, first), AfterFirst(inst, first))
    ensures Leaves(Written(SecondPass(inst, first)), inst.n) == LinesOpened(first) <==>
            forall k: nat :: k < |first| && first[k].a == 0 ==>
              PassedOver(inst, Distances(inst, first), Pass(inst, Distances(inst, first), AfterFirst(inst, first), k), k)
  {
    hide SpansGreedily, ChildCount, MinDist, IsDistance, Written, Accepts, Leaves, LinesOpened, InRange, DangerTotal,
      PassInv, InBounds, MovedOff, Sum, PassDecreases, PassedOver, Pass;
    BothPassesAccepted(inst, first);
    NoneMovedOff(first, SecondPass(inst, first));
    SecondPassStarts(inst, first);
    forall k: nat | k < |first| && first[k].a == 0
      ensures SecondPass(inst, first)[k].a == 0 <==>
              PassedOver(inst, Distances(inst, first), Pass(inst, Distances(inst, first), AfterFirst(inst, first), k), k)
    {
      StaysAtSchool(inst, first, Distances(inst, first), AfterFirst(inst, first), k);
    }
  }

  lemma FirstPassGrowsLines(inst: Instance, first: seq<Arc>)
    requires ValidInstance(inst)
    ensures SpansGreedily(inst, first) <==> NearestRun(inst, first) && |first| == inst.n - 1
  {
    hide GreedyRun, NearestRun, IsDistance;
    GreedyGrowsLines(inst, first);
  }

  /** The program followed by its judge: feasible as soon as there is a stop, with the danger the
      program reports and the leaves it reports less the stops moved off the school. */
  method SolveAndJudge(inst: Instance)
    returns (verdict: Verdict, maxBranches: nat, minDangerousness: real, ghost first: seq<Arc>)
    requires ValidInstance(inst)
    ensures SpansGreedily(inst, first) && InRange(inst.n, Written(first)) && NearestRun(inst, first)
    ensures TakesTurns(inst, Distances(inst, first), first, SecondPass(inst, first))
    ensures verdict.Feasible? <==> inst.n > 1
    ensures verdict.Feasible? ==> verdict.danger == minDangerousness
    ensures verdict.Feasible? ==> verdict.leaves == maxBranches - MovedOff(first, SecondPass(inst, first))
  {
    var sol, firstDanger;
    hide SpansGreedily, Written, Accepts, Leaves, LinesOpened, InRange, DangerTotal, LeafSet, LineDangers, Sum, SecondPass,
      IsDistance, NearestRun, TakesTurns;
    sol, maxBranches, firstDanger, minDangerousness, first := Solve(inst);
    BothPassesAccepted(inst, first);
    LeavesCounted(sol, inst.n);
    DangerSummed(inst.danger, inst.n, sol);
    FirstPassGrowsLines(inst, first);
    SecondPassTakesTurns(inst, first, SecondPass(inst, first));
    verdict := ReadSolution(inst.n, inst.alpha, inst.dist, inst.danger, sol);
  }
}
