/** The judge of the challenge: reads a solution line by line and accepts or names the first fault. */
module Checker {
  import opened Arcs
  import opened Sets
  import opened Sums
  import opened Walks

  /** One line `(s, t)` of a solution file says that `s` walks on to `t`. */
  type Solution = seq<(nat, nat)>

  datatype Verdict =
    | Feasible(leaves: nat, danger: real)
    | MultipleOutgoing(node: nat)
    | SchoolOutgoing
    | WrongOutDegree(node: nat)
    | SchoolUnreached
    | TooLong(node: nat)
    | NeverEnds(node: nat)  // the checker's walk from this node does not terminate

  ghost predicate InRange(n: nat, sol: Solution) {
    forall k :: 0 <= k < |sol| ==> sol[k].0 < n && sol[k].1 < n
  }

  // ----- what the challenge asks, in terms of the lines alone

  ghost predicate LineFrom(sol: Solution, s: nat) {
    exists k :: 0 <= k < |sol| && sol[k].0 == s
  }

  ghost predicate LineTo(sol: Solution, t: nat) {
    exists k :: 0 <= k < |sol| && sol[k].1 == t
  }

  /** No line starts at the school, and no two start at the same stop. */
  ghost predicate Clean(sol: Solution) {
    && (forall k :: 0 <= k < |sol| ==> sol[k].0 != 0)
    && forall i, k :: 0 <= i < k < |sol| ==> sol[i].0 != sol[k].0
  }

  /** Every stop walks on to one node, the school to none, and somebody walks to the school. */
  ghost predicate DegreesRight(n: nat, sol: Solution) {
    Clean(sol) && (forall v: nat :: 1 <= v < n ==> LineFrom(sol, v)) && LineTo(sol, 0)
  }

  ghost predicate Step(sol: Solution, s: nat, t: nat) {
    s != 0 && exists k :: 0 <= k < |sol| && sol[k] == (s, t)
  }

  /** A list of nodes, each walking on to the next by a line of the file, up to the school. */
  ghost predicate IsWalk(sol: Solution, v: nat, q: seq<nat>) {
    && |q| > 0 && q[0] == v && q[|q| - 1] == 0
    && forall i :: 0 <= i < |q| - 1 ==> Step(sol, q[i], q[i + 1])
  }

  lemma WalkInCosts(n: nat, costs: seq<seq<real>>, sol: Solution, v: nat, q: seq<nat>)
    requires IsMatrix(costs, n) && InRange(n, sol) && IsWalk(sol, v, q)
    ensures InCosts(costs, q)
  {
    forall i | 0 <= i < |q| - 1 ensures q[i] < |costs| && q[i + 1] < |costs[q[i]]| {
      assert Step(sol, q[i], q[i + 1]);
    }
  }

  /** The walk from `v` reaches the school and is at most `alpha` times the direct distance. */
  ghost predicate WalkWithin(n: nat, alpha: real, costs: seq<seq<real>>, sol: Solution, v: nat)
    requires IsMatrix(costs, n) && 1 <= v < n
  {
    exists q :: IsWalk(sol, v, q) && InCosts(costs, q) && WalkLength(costs, q) <= alpha * costs[v][0]
  }

  ghost predicate WalksFine(n: nat, alpha: real, costs: seq<seq<real>>, sol: Solution, bound: nat)
    requires IsMatrix(costs, n) && bound <= n
  {
    forall v: nat :: 1 <= v < bound ==> WalkWithin(n, alpha, costs, sol, v)
  }

  /** What the challenge asks of a solution. */
  ghost predicate Accepts(n: nat, alpha: real, costs: seq<seq<real>>, sol: Solution)
    requires IsMatrix(costs, n)
  {
    DegreesRight(n, sol) && WalksFine(n, alpha, costs, sol, n)
  }

  /** The first forbidden line starts at the school or where an earlier line starts. */
  ghost predicate FirstBadLine(sol: Solution, r: Verdict) {
    match r
    case SchoolOutgoing => exists k: nat :: k < |sol| && Clean(sol[..k]) && sol[k].0 == 0
    case MultipleOutgoing(v) =>
      exists m: nat, k: nat :: m < k < |sol| && Clean(sol[..k]) && sol[m].0 == sol[k].0 == v
    case _ => false
  }

  /** The verdict is the first fault in the order of the check: forbidden lines in the order of the file,
      then stops without a line, then the school, then the walks from the stops; or there is none. */
  ghost predicate Judged(n: nat, alpha: real, costs: seq<seq<real>>, danger: seq<seq<real>>, sol: Solution, r: Verdict)
    requires IsMatrix(costs, n) && IsMatrix(danger, n) && InRange(n, sol)
  {
    match r
    case Feasible(leaves, total) =>
      Accepts(n, alpha, costs, sol) && leaves == |LeafSet(sol, n)| && total == Sum(LineDangers(danger, n, sol))
    case MultipleOutgoing(_) => FirstBadLine(sol, r)
    case SchoolOutgoing => FirstBadLine(sol, r)
    case WrongOutDegree(v) =>
      && Clean(sol) && 1 <= v < n && !LineFrom(sol, v)
      && forall u: nat :: 1 <= u < v ==> LineFrom(sol, u)
    case SchoolUnreached =>
      Clean(sol) && (forall v: nat :: 1 <= v < n ==> LineFrom(sol, v)) && !LineTo(sol, 0)
    case TooLong(v) =>
      && DegreesRight(n, sol) && 1 <= v < n && WalksFine(n, alpha, costs, sol, v)
      && exists q :: IsWalk(sol, v, q) && InCosts(costs, q) && WalkLength(costs, q) > alpha * costs[v][0]
    case NeverEnds(v) =>
      && DegreesRight(n, sol) && 1 <= v < n && WalksFine(n, alpha, costs, sol, v)
      && forall q :: !IsWalk(sol, v, q)
  }

  /** The stops that nobody walks to. */
  ghost function LeafSet(sol: Solution, bound: nat): set<nat> {
    set v: nat | 1 <= v < bound && !LineTo(sol, v)
  }

  function LineDangers(danger: seq<seq<real>>, n: nat, sol: Solution): seq<real>
    requires IsMatrix(danger, n) && InRange(n, sol)
  {
    seq(|sol|, k requires 0 <= k < |sol| => danger[sol[k].0][sol[k].1])
  }

  // ----- the counts of the check

  function InCount(sol: Solution, t: nat): nat {
    if |sol| == 0 then 0
    else InCount(sol[..|sol| - 1], t) + if sol[|sol| - 1].1 == t then 1 else 0
  }

  function DangerTotal(danger: seq<seq<real>>, n: nat, sol: Solution): real
    requires IsMatrix(danger, n) && InRange(n, sol)
  {
    if |sol| == 0 then 0.0
    else DangerTotal(danger, n, sol[..|sol| - 1]) + danger[sol[|sol| - 1].0][sol[|sol| - 1].1]
  }

  /** Where each node walks on to, -1 if nowhere. */
  function Targets(n: nat, sol: Solution): (p: seq<int>)
    requires InRange(n, sol)
    ensures |p| == n
    ensures forall v :: 0 <= v < n ==> -1 <= p[v] < n
  {
    if |sol| == 0 then seq(n, _ => -1)
    else Targets(n, sol[..|sol| - 1])[sol[|sol| - 1].0 := sol[|sol| - 1].1]
  }

  /** Number of nodes among 1..bound-1 that nobody walks to. */
  function Leaves(sol: Solution, bound: nat): nat {
    if bound <= 1 then 0
    else Leaves(sol, bound - 1) + if InCount(sol, bound - 1) == 0 then 1 else 0
  }

  lemma {:induction false} InCountZero(sol: Solution, t: nat)
    ensures InCount(sol, t) == 0 <==> !LineTo(sol, t)
  {
    if |sol| > 0 {
      var last := |sol| - 1;
      InCountZero(sol[..last], t);
      assert LineTo(sol, t) <==> LineTo(sol[..last], t) || sol[last].1 == t by {
        assert forall k :: 0 <= k < last ==> sol[..last][k] == sol[k];
      }
    }
  }

  lemma {:induction false} LeavesCounted(sol: Solution, bound: nat)
    ensures Leaves(sol, bound) == |LeafSet(sol, bound)|
  {
    if bound <= 1 {
      assert LeafSet(sol, bound) == {};
    } else {
      LeavesCounted(sol, bound - 1);
      InCountZero(sol, bound - 1);
      assert LeafSet(sol, bound) == LeafSet(sol, bound - 1) + if LineTo(sol, bound - 1) then {} else {bound - 1};
    }
  }

  lemma {:induction false} DangerSummed(danger: seq<seq<real>>, n: nat, sol: Solution)
    requires IsMatrix(danger, n) && InRange(n, sol)
    ensures DangerTotal(danger, n, sol) == Sum(LineDangers(danger, n, sol))
  {
    if |sol| > 0 {
      var last := |sol| - 1;
      DangerSummed(danger, n, sol[..last]);
      assert LineDangers(danger, n, sol)[..last] == LineDangers(danger, n, sol[..last]);
    }
  }

  /** In a clean file the targets are what the lines say. */
  lemma {:induction false} TargetsAreLines(n: nat, sol: Solution, s: nat)
    requires InRange(n, sol) && Clean(sol) && s < n
    ensures Targets(n, sol)[s] == -1 <==> !LineFrom(sol, s)
    ensures forall t: nat :: Step(sol, s, t) <==> s != 0 && Targets(n, sol)[s] == t
  {
    if |sol| > 0 {
      var last := |sol| - 1;
      var before := sol[..last];
      TargetsAreLines(n, before, s);
      assert LineFrom(sol, s) <==> LineFrom(before, s) || sol[last].0 == s by {
        assert forall k :: 0 <= k < last ==> before[k] == sol[k];
      }
      forall t: nat ensures Step(sol, s, t) <==> s != 0 && Targets(n, sol)[s] == t {
        if Step(before, s, t) {
          var k :| 0 <= k < last && before[k] == (s, t);
          assert sol[k] == (s, t);
        }
        if Step(sol, s, t) {
          var k :| 0 <= k < |sol| && sol[k] == (s, t);
          assert k < last ==> before[k] == (s, t);
        }
        assert sol[last].0 == s ==> !LineFrom(before, s);
        assert Step(before, s, t) ==> LineFrom(before, s);
      }
    }
  }

  lemma WalksFollowTargets(n: nat, sol: Solution, v: nat, q: seq<nat>)
    requires InRange(n, sol) && Clean(sol)
    ensures IsWalk(sol, v, q) <==> WalkAlong(Targets(n, sol), q) && q[0] == v
  {
    var p := Targets(n, sol);
    forall i | 0 <= i < |q| - 1 ensures Step(sol, q[i], q[i + 1]) <==> GoesTo(p, q[i], q[i + 1]) {
      if q[i] < n {
        TargetsAreLines(n, sol, q[i]);
      }
    }
  }

  /** What the length along the targets says about the walks by lines. */
  lemma WalksMeasured(n: nat, alpha: real, costs: seq<seq<real>>, sol: Solution, v: nat)
    requires IsMatrix(costs, n) && InRange(n, sol) && Clean(sol) && 1 <= v < n
    ensures var c := PathLength(costs, Targets(n, sol), v, n);
            && (c.None? <==> forall q :: !IsWalk(sol, v, q))
            && (WalkWithin(n, alpha, costs, sol, v) <==> c.Some? && c.value <= alpha * costs[v][0])
            && ((exists q :: IsWalk(sol, v, q) && InCosts(costs, q) && WalkLength(costs, q) > alpha * costs[v][0]) <==>
                c.Some? && c.value > alpha * costs[v][0])
  {
    var p := Targets(n, sol);
    var c := PathLength(costs, p, v, n);
    if c.Some? {
      var q := WalkOfPath(costs, p, v, n);
      WalksFollowTargets(n, sol, v, q);
    }
    forall q | IsWalk(sol, v, q) ensures InCosts(costs, q) && c == Some(WalkLength(costs, q)) {
      WalksFollowTargets(n, sol, v, q);
      PathOfWalk(costs, p, q, |q|);
      WalkDecided(costs, p, v, |q|);
    }
  }

  // ----- reading

  lemma PrefixStep(sol: Solution, k: nat)
    requires k < |sol|
    ensures sol[..k + 1][..k] == sol[..k] && sol[..k + 1][k] == sol[k] && |sol[..k + 1]| == k + 1
  {
  }

  lemma OneLineMore(sol: Solution, k: nat, v: nat)
    requires k < |sol|
    ensures LineFrom(sol[..k + 1], v) <==> LineFrom(sol[..k], v) || sol[k].0 == v
  {
    assert sol[..k + 1][k] == sol[k];
    assert forall i :: 0 <= i < k ==> sol[..k + 1][i] == sol[..k][i];
  }

  /** What the arrays hold after the lines of `read`. */
  ghost predicate Tallied(n: nat, read: Solution, arcs: seq<int>, outDegree: seq<int>, inDegree: seq<int>)
    requires InRange(n, read)
  {
    && |outDegree| == |inDegree| == n && arcs == Targets(n, read) && Clean(read)
    && (forall v: nat :: v < n ==> outDegree[v] == if LineFrom(read, v) then 1 else 0)
    && (forall v: nat :: v < n ==> (arcs[v] == -1 <==> !LineFrom(read, v)))
    && (forall v: nat :: v < n ==> inDegree[v] == InCount(read, v))
  }

  lemma DangerLine(danger: seq<seq<real>>, n: nat, sol: Solution, k: nat)
    requires IsMatrix(danger, n) && InRange(n, sol) && k <= |sol|
    ensures k == 0 ==> DangerTotal(danger, n, sol[..k]) == 0.0
    ensures k < |sol| ==>
              DangerTotal(danger, n, sol[..k + 1]) == DangerTotal(danger, n, sol[..k]) + danger[sol[k].0][sol[k].1]
  {
    if k < |sol| { PrefixStep(sol, k); }
  }

  /** A line is forbidden when its node has walked on already, which the school never has. */
  lemma ForbiddenLine(n: nat, sol: Solution, k: nat, arcs: seq<int>, outDegree: seq<int>, inDegree: seq<int>)
    requires InRange(n, sol) && k < |sol| && Tallied(n, sol[..k], arcs, outDegree, inDegree)
    ensures |arcs| == |outDegree| == |inDegree| == n && sol[k].0 < n && sol[k].1 < n
    ensures arcs[sol[k].0] != -1 ==> FirstBadLine(sol, MultipleOutgoing(sol[k].0))
    ensures sol[k].0 == 0 ==> arcs[0] == -1 && FirstBadLine(sol, SchoolOutgoing)
  {
    if arcs[sol[k].0] != -1 {
      var m :| 0 <= m < k && sol[..k][m].0 == sol[k].0;
      assert sol[m].0 == sol[k].0;
    }
  }

  lemma TallyLine(n: nat, sol: Solution, k: nat, arcs: seq<int>, outDegree: seq<int>, inDegree: seq<int>)
    requires InRange(n, sol) && k < |sol| && Tallied(n, sol[..k], arcs, outDegree, inDegree)
    requires sol[k].0 != 0 && arcs[sol[k].0] == -1
    ensures Tallied(n, sol[..k + 1], arcs[sol[k].0 := sol[k].1],
                    outDegree[sol[k].0 := outDegree[sol[k].0] + 1], inDegree[sol[k].1 := inDegree[sol[k].1] + 1])
  {
    PrefixStep(sol, k);
    assert !LineFrom(sol[..k], sol[k].0);
    forall v: nat ensures LineFrom(sol[..k + 1], v) <==> LineFrom(sol[..k], v) || sol[k].0 == v {
      OneLineMore(sol, k, v);
    }
    var read := sol[..k + 1];
    forall i, m | 0 <= i < m < |read| ensures read[i].0 != read[m].0 {
      assert sol[..k][i].0 == read[i].0;
    }
  }

  lemma NothingRead(n: nat)
    ensures Tallied(n, [], seq(n, _ => -1), seq(n, _ => 0), seq(n, _ => 0))
  {
  }

  // ----- the first fault is one

  /** The clean part of a file ends with the line before the first forbidden one. */
  ghost predicate BadAt(sol: Solution, k: nat) {
    k < |sol| && Clean(sol[..k]) && !Clean(sol[..k + 1])
  }

  lemma UncleanLonger(sol: Solution, k: nat, m: nat)
    requires k <= m <= |sol| && !Clean(sol[..k])
    ensures !Clean(sol[..m])
  {
    assert forall i :: 0 <= i < k ==> sol[..m][i] == sol[..k][i];
  }

  lemma BadOnce(sol: Solution, k: nat, m: nat)
    requires BadAt(sol, k)
    ensures !Clean(sol)
    ensures BadAt(sol, m) ==> m == k
  {
    assert sol[..|sol|] == sol;
    UncleanLonger(sol, k + 1, |sol|);
    if BadAt(sol, m) && m != k {
      UncleanLonger(sol, (if m < k then m else k) + 1, if m < k then k else m);
    }
  }

  lemma BadLineAt(sol: Solution, r: Verdict) returns (k: nat)
    requires FirstBadLine(sol, r)
    ensures BadAt(sol, k) && r == if sol[k].0 == 0 then SchoolOutgoing else MultipleOutgoing(sol[k].0)
  {
    match r {
      case SchoolOutgoing =>
        k :| k < |sol| && Clean(sol[..k]) && sol[k].0 == 0;
        assert sol[..k + 1][k].0 == 0;
      case MultipleOutgoing(v) =>
        var m: nat;
        m, k :| m < k < |sol| && Clean(sol[..k]) && sol[m].0 == sol[k].0 == v;
        assert sol[..k][m].0 == v;
        assert sol[..k + 1][m].0 == sol[..k + 1][k].0;
      case _ =>
    }
  }

  lemma NotClean(sol: Solution, r: Verdict)
    requires FirstBadLine(sol, r)
    ensures !Clean(sol) && (r.MultipleOutgoing? || r.SchoolOutgoing?)
  {
    var k := BadLineAt(sol, r);
    BadOnce(sol, k, k);
  }

  lemma OneBadLine(sol: Solution, r: Verdict, r': Verdict)
    requires FirstBadLine(sol, r) && FirstBadLine(sol, r')
    ensures r == r'
  {
    var k := BadLineAt(sol, r);
    var k' := BadLineAt(sol, r');
    BadOnce(sol, k, k');
  }

  /** Of two verdicts about the walks, the one about the later stop refutes the other. */
  lemma OneWalkVerdict(n: nat, alpha: real, costs: seq<seq<real>>, danger: seq<seq<real>>, sol: Solution,
                       r: Verdict, r': Verdict)
    requires IsMatrix(costs, n) && IsMatrix(danger, n) && InRange(n, sol)
    requires Judged(n, alpha, costs, danger, sol, r) && Judged(n, alpha, costs, danger, sol, r')
    requires (r.TooLong? || r.NeverEnds?) && (r'.TooLong? || r'.NeverEnds?)
    ensures r == r'
  {
    hide PathLength, Targets, Clean, WalkWithin, IsWalk, InCosts, WalkLength;
    WalksMeasured(n, alpha, costs, sol, r.node);
    WalksMeasured(n, alpha, costs, sol, r'.node);
  }

  lemma LateVerdict(n: nat, alpha: real, costs: seq<seq<real>>, danger: seq<seq<real>>, sol: Solution, r: Verdict)
    requires IsMatrix(costs, n) && IsMatrix(danger, n) && InRange(n, sol)
    requires Judged(n, alpha, costs, danger, sol, r)
    ensures r.MultipleOutgoing? || r.SchoolOutgoing? ==> FirstBadLine(sol, r) && !Clean(sol)
    ensures !r.MultipleOutgoing? && !r.SchoolOutgoing? ==> Clean(sol)
    ensures r.Feasible? || r.TooLong? || r.NeverEnds? ==> DegreesRight(n, sol)
    ensures r.Feasible? ==> WalksFine(n, alpha, costs, sol, n)
    ensures r.TooLong? || r.NeverEnds? ==> !WalksFine(n, alpha, costs, sol, n)
  {
    hide PathLength, Targets, WalkWithin, IsWalk, InCosts, WalkLength, FirstBadLine, Clean;
    if r.MultipleOutgoing? || r.SchoolOutgoing? {
      NotClean(sol, r);
    } else if r.TooLong? || r.NeverEnds? {
      WalksMeasured(n, alpha, costs, sol, r.node);
    }
  }

  /** The verdicts between the lines and the walks exclude all others. */
  lemma LateStage(n: nat, alpha: real, costs: seq<seq<real>>, danger: seq<seq<real>>, sol: Solution,
                  r: Verdict, r': Verdict)
    requires IsMatrix(costs, n) && IsMatrix(danger, n) && InRange(n, sol)
    requires Judged(n, alpha, costs, danger, sol, r) && Judged(n, alpha, costs, danger, sol, r')
    requires r.WrongOutDegree? || r.SchoolUnreached?
    requires !r'.MultipleOutgoing? && !r'.SchoolOutgoing?
    ensures r == r'
  {
    hide Clean, WalksFine, Accepts, LineFrom, LineTo, IsWalk;
    LateVerdict(n, alpha, costs, danger, sol, r');
  }

  /** No file gets two verdicts. */
  lemma OneVerdict(n: nat, alpha: real, costs: seq<seq<real>>, danger: seq<seq<real>>, sol: Solution,
                   r: Verdict, r': Verdict)
    requires IsMatrix(costs, n) && IsMatrix(danger, n) && InRange(n, sol)
    requires Judged(n, alpha, costs, danger, sol, r) && Judged(n, alpha, costs, danger, sol, r')
    ensures r == r'
  {
    hide Clean, FirstBadLine, DegreesRight, WalksFine, IsWalk, LineFrom, LineTo;
    LateVerdict(n, alpha, costs, danger, sol, r);
    LateVerdict(n, alpha, costs, danger, sol, r');
    if !Clean(sol) {
      OneBadLine(sol, r, r');
    } else if r.WrongOutDegree? || r.SchoolUnreached? {
      LateStage(n, alpha, costs, danger, sol, r, r');
    } else if r'.WrongOutDegree? || r'.SchoolUnreached? {
      LateStage(n, alpha, costs, danger, sol, r', r);
    } else if !r.Feasible? && !r'.Feasible? {
      OneWalkVerdict(n, alpha, costs, danger, sol, r, r');
    }
  }

  // ----- the program

  /** The whole check. Node numbers are assumed to be in range, as the file format demands. */
  method ReadSolution(n: nat, alpha: real, costs: seq<seq<real>>, danger: seq<seq<real>>, sol: Solution)
    returns (r: Verdict)
    requires n > 0 && IsMatrix(costs, n) && IsMatrix(danger, n) && InRange(n, sol)
    ensures r.Feasible? <==> Accepts(n, alpha, costs, sol)
    ensures Judged(n, alpha, costs, danger, sol, r)
  {
    hide InCount, PathLength, Targets, Leaves, DangerTotal, InRange, LineFrom, LineTo, IsWalk, FirstBadLine, Clean,
      WalkWithin;
    var fault, arcs, outDegree, inDegree, dangerValue := ReadLines(n, danger, sol);
    if fault.Some? {
      NotClean(sol, fault.value);
      return fault.value;
    }
    for i := 1 to n
      invariant forall v: nat :: 1 <= v < i ==> LineFrom(sol, v)
    {
      if outDegree[i] != 1 {
        return WrongOutDegree(i);
      }
    }
    InCountZero(sol, 0);
    if inDegree[0] <= 0 {
      return SchoolUnreached;
    }
    var solValue := 0;
    NoLeaves(sol);
    for i := 1 to n
      invariant solValue == Leaves(sol, i)
      invariant Tallied(n, sol, arcs[..], outDegree[..], inDegree[..])
    {
      NextLeaf(sol, i);
      assert inDegree[i] == InCount(sol, i);
      if inDegree[i] == 0 {
        solValue := solValue + 1;
      }
    }
    forall v: nat | 1 <= v < n ensures 0 <= arcs[v] < n {
      assert arcs[v] == arcs[..][v] && LineFrom(sol, v);
    }
    for i := 1 to n
      invariant WalksFine(n, alpha, costs, sol, i)
      invariant Tallied(n, sol, arcs[..], outDegree[..], inDegree[..])
    {
      var c := Walk(n, costs, arcs, i);
      WalksMeasured(n, alpha, costs, sol, i);
      if c.None? {
        return NeverEnds(i);
      }
      if c.value > alpha * costs[i][0] {
        return TooLong(i);
      }
    }
    LeavesCounted(sol, n);
    DangerSummed(danger, n, sol);
    return Feasible(solValue, dangerValue);
  }

  lemma NoLeaves(sol: Solution)
    ensures Leaves(sol, 1) == 0
  {
  }

  lemma NextLeaf(sol: Solution, v: nat)
    requires v > 0
    ensures Leaves(sol, v + 1) == Leaves(sol, v) + if InCount(sol, v) == 0 then 1 else 0
  {
  }

  /** The first loop of the check: fills the arrays, or stops at the first forbidden line. */
  method ReadLines(n: nat, danger: seq<seq<real>>, sol: Solution)
    returns (fault: Option<Verdict>, arcs: array<int>, outDegree: array<int>, inDegree: array<int>, dangerValue: real)
    requires n > 0 && IsMatrix(danger, n) && InRange(n, sol)
    ensures fault.Some? ==> FirstBadLine(sol, fault.value)
    ensures fault.None? ==> Tallied(n, sol, arcs[..], outDegree[..], inDegree[..])
    ensures fault.None? ==> dangerValue == DangerTotal(danger, n, sol)
  {
    hide Targets, InCount, DangerTotal, Tallied, FirstBadLine;
    fault := None;
    DangerLine(danger, n, sol, 0);
    arcs := new int[n](_ => -1);
    outDegree := new int[n](_ => 0);
    inDegree := new int[n](_ => 0);
    dangerValue := 0.0;
    NothingRead(n);
    assert sol[..0] == [] && arcs[..] == seq(n, _ => -1);
    assert outDegree[..] == inDegree[..] == seq(n, _ => 0);
    for k := 0 to |sol|
      invariant Tallied(n, sol[..k], arcs[..], outDegree[..], inDegree[..])
      invariant dangerValue == DangerTotal(danger, n, sol[..k])
    {
      var (s, t) := sol[k];
      DangerLine(danger, n, sol, k);
      ForbiddenLine(n, sol, k, arcs[..], outDegree[..], inDegree[..]);
      dangerValue := dangerValue + danger[s][t];
      if arcs[s] != -1 {
        fault := Some(MultipleOutgoing(s));
        return;
      }
      if s == 0 {
        fault := Some(SchoolOutgoing);
        return;
      }
      TallyLine(n, sol, k, arcs[..], outDegree[..], inDegree[..]);
      ghost var a, o, d := arcs[..], outDegree[..], inDegree[..];
      arcs[s] := t;
      outDegree[s] := outDegree[s] + 1;
      inDegree[t] := inDegree[t] + 1;
      assert arcs[..] == a[s := t];
      assert outDegree[..] == o[s := o[s] + 1];
      assert inDegree[..] == d[t := d[t] + 1];
    }
    assert sol[..|sol|] == sol;
  }

  /** The checker's walk from `i`, cut off after `n` steps; `None` exactly when it would not end. */
  method Walk(n: nat, costs: seq<seq<real>>, arcs: array<int>, i: nat) returns (c: Option<real>)
    requires IsMatrix(costs, n) && arcs.Length == n && 1 <= i < n
    requires forall v: nat :: 1 <= v < n ==> 0 <= arcs[v] < n
    ensures c == PathLength(costs, arcs[..], i, n)
    ensures c.None? <==> forall q :: WalkAlong(arcs[..], q) ==> q[0] != i
    ensures c.Some? ==> exists q :: WalkAlong(arcs[..], q) && q[0] == i && InCosts(costs, q) && WalkLength(costs, q) == c.value
  {
    ghost var p := arcs[..];
    var j: nat := arcs[i];
    var length := costs[i][j];
    var steps := 1;
    while j != 0 && steps < n
      invariant 1 <= steps <= n && j < n
      invariant PathLength(costs, p, i, n) ==
                match PathLength(costs, p, j, n - steps) { case None => None case Some(r) => Some(length + r) }
      decreases n - steps
    {
      length := length + costs[j][arcs[j]];
      j := arcs[j];
      steps := steps + 1;
    }
    c := if j == 0 then Some(length) else None;
    EndsAtAll(costs, p, i);
  }

  /** `n` steps decide whether there is a walk from `v`. */
  lemma EndsAtAll(costs: seq<seq<real>>, p: seq<int>, v: nat)
    requires IsMatrix(costs, |p|) && v < |p|
    ensures var c := PathLength(costs, p, v, |p|);
            && (c.None? <==> forall q :: WalkAlong(p, q) ==> q[0] != v)
            && (c.Some? ==> exists q :: WalkAlong(p, q) && q[0] == v && InCosts(costs, q) && WalkLength(costs, q) == c.value)
  {
    if PathLength(costs, p, v, |p|).Some? {
      var q := WalkOfPath(costs, p, v, |p|);
    }
    forall q | WalkAlong(p, q) && q[0] == v ensures PathLength(costs, p, v, |p|).Some? {
      PathOfWalk(costs, p, q, |q|);
      WalkDecided(costs, p, v, |q|);
    }
  }
}
