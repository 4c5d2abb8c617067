/** Counting arguments on arcs: how children, leaves and lines of a tree relate. */
module Counting {
  import opened Arcs
  import opened GreedyTree
  import opened Checker
  import opened Sets

  /** The solution file written for `arcs`: one line per arc, from the stop entered to its parent. */
  function Written(arcs: seq<Arc>): (sol: Solution)
    ensures |sol| == |arcs|
    ensures forall k :: 0 <= k < |arcs| ==> sol[k] == (arcs[k].b, arcs[k].a)
  {
    seq(|arcs|, k requires 0 <= k < |arcs| => (arcs[k].b, arcs[k].a))
  }

  lemma WrittenPrefix(arcs: seq<Arc>)
    requires |arcs| > 0
    ensures Written(arcs)[..|arcs| - 1] == Written(arcs[..|arcs| - 1])
  {
  }

  lemma {:induction false} InCountIsChildCount(arcs: seq<Arc>, t: nat)
    ensures InCount(Written(arcs), t) == ChildCount(arcs, t)
  {
    if |arcs| > 0 {
      WrittenPrefix(arcs);
      InCountIsChildCount(arcs[..|arcs| - 1], t);
    }
  }

  lemma WrittenClean(arcs: seq<Arc>)
    requires DistinctStops(arcs)
    ensures Clean(Written(arcs))
  {
  }

  lemma WrittenFrom(arcs: seq<Arc>, i: nat)
    requires i < |arcs|
    ensures LineFrom(Written(arcs), arcs[i].b)
  {
    assert Written(arcs)[i].0 == arcs[i].b;
  }

  lemma {:induction false} TargetAt(n: nat, arcs: seq<Arc>, i: nat)
    requires InRange(n, Written(arcs)) && DistinctStops(arcs) && i < |arcs|
    ensures arcs[i].b < n && Targets(n, Written(arcs))[arcs[i].b] == arcs[i].a
  {
    assert Written(arcs)[i].0 < n;
    if i < |arcs| - 1 {
      WrittenPrefix(arcs);
      TargetAt(n, arcs[..|arcs| - 1], i);
    }
  }

  lemma {:induction false} ChildCountUpdate(arcs: seq<Arc>, i: nat, x: Arc, u: nat)
    requires i < |arcs|
    ensures ChildCount(arcs[i := x], u) ==
            ChildCount(arcs, u) - (if arcs[i].a == u then 1 else 0) + (if x.a == u then 1 else 0)
  {
    var last := |arcs| - 1;
    if i < last {
      assert arcs[i := x][..last] == arcs[..last][i := x];
      ChildCountUpdate(arcs[..last], i, x, u);
    } else {
      assert arcs[i := x][..last] == arcs[..last];
    }
  }

  // ----- children of all nodes together

  function ChildSum(arcs: seq<Arc>, bound: nat): nat {
    if bound == 0 then 0 else ChildSum(arcs, bound - 1) + ChildCount(arcs, bound - 1)
  }

  /** Number of stops 1..bound-1 without a child. */
  function Childless(arcs: seq<Arc>, bound: nat): nat {
    if bound <= 1 then 0
    else Childless(arcs, bound - 1) + if ChildCount(arcs, bound - 1) == 0 then 1 else 0
  }

  lemma {:induction false} ChildSumStep(arcs: seq<Arc>, bound: nat)
    requires |arcs| > 0
    ensures ChildSum(arcs, bound) ==
            ChildSum(arcs[..|arcs| - 1], bound) + if arcs[|arcs| - 1].a < bound then 1 else 0
  {
    if bound > 0 {
      ChildSumStep(arcs, bound - 1);
    }
  }

  lemma {:induction false} ChildSumNone(bound: nat)
    ensures ChildSum([], bound) == 0
  {
    if bound > 0 {
      ChildSumNone(bound - 1);
    }
  }

  lemma {:induction false} ChildSumIsArcs(arcs: seq<Arc>, n: nat)
    requires forall k :: 0 <= k < |arcs| ==> arcs[k].a < n
    ensures ChildSum(arcs, n) == |arcs|
  {
    if |arcs| == 0 {
      ChildSumNone(n);
    } else {
      ChildSumStep(arcs, n);
      ChildSumIsArcs(arcs[..|arcs| - 1], n);
    }
  }

  lemma {:induction false} SumFromChildless(arcs: seq<Arc>, bound: nat)
    requires bound > 0 && forall u: nat :: 1 <= u < bound ==> ChildCount(arcs, u) <= 1
    ensures ChildSum(arcs, bound) == ChildCount(arcs, 0) + (bound - 1) - Childless(arcs, bound)
  {
    if bound > 1 {
      SumFromChildless(arcs, bound - 1);
    }
  }

  /** A tree with n - 1 arcs in which no stop has two children has as many leaves as the school has
      children. */
  lemma LeavesAreLines(arcs: seq<Arc>, n: nat)
    requires n > 0 && |arcs| == n - 1 && forall k :: 0 <= k < |arcs| ==> arcs[k].a < n
    requires forall u: nat :: 1 <= u < n ==> ChildCount(arcs, u) <= 1
    ensures Childless(arcs, n) == ChildCount(arcs, 0)
    ensures Leaves(Written(arcs), n) == ChildCount(arcs, 0)
  {
    ChildSumIsArcs(arcs, n);
    SumFromChildless(arcs, n);
    LeavesAreChildless(arcs, n);
  }

  lemma {:induction false} LeavesAreChildless(arcs: seq<Arc>, bound: nat)
    ensures Leaves(Written(arcs), bound) == Childless(arcs, bound)
  {
    if bound > 1 {
      LeavesAreChildless(arcs, bound - 1);
      InCountIsChildCount(arcs, bound - 1);
    }
  }

  lemma {:induction false} ChildlessWitness(arcs: seq<Arc>, bound: nat, u: nat)
    requires 1 <= u < bound && ChildCount(arcs, u) == 0
    ensures Childless(arcs, bound) > 0
  {
    if u < bound - 1 {
      ChildlessWitness(arcs, bound - 1, u);
    }
  }

  // ----- n - 1 different stops are all stops

  lemma EveryStopEntered(arcs: seq<Arc>, n: nat, v: nat) returns (i: nat)
    requires DistinctStops(arcs) && |arcs| == n - 1 && 1 <= v < n
    requires forall k :: 0 <= k < |arcs| ==> arcs[k].b < n
    ensures i < |arcs| && arcs[i].b == v
  {
    if forall k :: 0 <= k < |arcs| ==> arcs[k].b != v {
      var entered := Entered(arcs);
      EnteredCard(arcs);
      var all := entered + {0, v};
      assert |all| == |arcs| + 2;
      Bounded(all, n);
      assert false;
    }
    i :| 0 <= i < |arcs| && arcs[i].b == v;
  }

  ghost function Entered(arcs: seq<Arc>): (s: set<nat>)
    ensures forall v :: v in s <==> exists k :: 0 <= k < |arcs| && arcs[k].b == v
  {
    set k | 0 <= k < |arcs| :: arcs[k].b
  }

  lemma {:induction false} EnteredCard(arcs: seq<Arc>)
    requires DistinctStops(arcs)
    ensures |Entered(arcs)| == |arcs|
  {
    if |arcs| == 0 {
      assert Entered(arcs) == {};
    } else {
      var last := |arcs| - 1;
      EnteredCard(arcs[..last]);
      forall v: nat ensures v in Entered(arcs) <==> v in Entered(arcs[..last]) || v == arcs[last].b {
        if v in Entered(arcs) {
          var k :| 0 <= k < |arcs| && arcs[k].b == v;
          assert k < last ==> arcs[..last][k].b == v;
        }
        if v in Entered(arcs[..last]) {
          var k :| 0 <= k < last && arcs[..last][k].b == v;
          assert arcs[k].b == v;
        }
      }
      assert Entered(arcs) == Entered(arcs[..last]) + {arcs[last].b};
    }
  }
}
