/** Walks along a list of targets, step by step and as lists of nodes. */
module Walks {
  import opened Arcs
  import opened Sets
  import opened Sums

  datatype Option<+T> = None | Some(value: T)

  /** Node `a` is not the school and walks on to `b`. */
  predicate GoesTo(p: seq<int>, a: nat, b: nat) {
    0 < a < |p| && b < |p| && b == p[a]
  }

  /** A list of nodes that follows the targets `p` and ends when it first reaches the school. */
  ghost predicate WalkAlong(p: seq<int>, q: seq<nat>) {
    && |q| > 0 && q[|q| - 1] == 0
    && forall i :: 0 <= i < |q| - 1 ==> GoesTo(p, q[i], q[i + 1])
  }

  ghost predicate InCosts(costs: seq<seq<real>>, q: seq<nat>) {
    |q| > 0 && forall i :: 0 <= i < |q| - 1 ==> q[i] < |costs| && q[i + 1] < |costs[q[i]]|
  }

  /** Sum of the costs from each node of a list to the next. */
  function WalkLength(costs: seq<seq<real>>, q: seq<nat>): real
    requires InCosts(costs, q)
  {
    Sum(seq(|q| - 1, i requires 0 <= i < |q| - 1 => costs[q[i]][q[i + 1]]))
  }

  /** Length of the walk from `v` to the school along `p`, if it gets there within `steps` steps. */
  function PathLength(costs: seq<seq<real>>, p: seq<int>, v: nat, steps: nat): Option<real>
    requires IsMatrix(costs, |p|)
    decreases steps
  {
    if v == 0 then Some(0.0)
    else if steps == 0 || v >= |p| || !(0 <= p[v] < |p|) then None
    else
      match PathLength(costs, p, p[v], steps - 1)
      case None => None
      case Some(c) => Some(costs[v][p[v]] + c)
  }

  lemma AlongInCosts(costs: seq<seq<real>>, p: seq<int>, q: seq<nat>)
    requires IsMatrix(costs, |p|) && WalkAlong(p, q)
    ensures InCosts(costs, q)
  {
    forall i | 0 <= i < |q| - 1 ensures q[i] < |costs| && q[i + 1] < |costs[q[i]]| {
      assert GoesTo(p, q[i], q[i + 1]);
    }
  }

  lemma OneMoreNode(costs: seq<seq<real>>, v: nat, q: seq<nat>)
    requires InCosts(costs, q) && v < |costs| && q[0] < |costs[v]|
    ensures InCosts(costs, [v] + q)
    ensures WalkLength(costs, [v] + q) == costs[v][q[0]] + WalkLength(costs, q)
  {
    var r := [v] + q;
    forall i | 0 <= i < |r| - 1 ensures r[i] < |costs| && r[i + 1] < |costs[r[i]]| {
      assert i > 0 ==> r[i] == q[i - 1] && r[i + 1] == q[i];
    }
    var steps := seq(|q| - 1, i requires 0 <= i < |q| - 1 => costs[q[i]][q[i + 1]]);
    assert seq(|r| - 1, i requires 0 <= i < |r| - 1 => costs[r[i]][r[i + 1]]) == [costs[v][q[0]]] + steps;
    SumAppend([costs[v][q[0]]], steps);
    SumOne(costs[v][q[0]]);
  }

  lemma {:induction false} WalkOfPath(costs: seq<seq<real>>, p: seq<int>, v: nat, steps: nat) returns (q: seq<nat>)
    requires IsMatrix(costs, |p|) && PathLength(costs, p, v, steps).Some?
    ensures WalkAlong(p, q) && q[0] == v && |q| <= steps + 1 && InCosts(costs, q)
    ensures PathLength(costs, p, v, steps) == Some(WalkLength(costs, q))
    decreases steps
  {
    if v == 0 {
      q := [0];
    } else {
      var rest := WalkOfPath(costs, p, p[v], steps - 1);
      q := [v] + rest;
      forall i | 0 <= i < |q| - 1 ensures GoesTo(p, q[i], q[i + 1]) {
        assert i > 0 ==> GoesTo(p, rest[i - 1], rest[i]);
      }
      OneMoreNode(costs, v, rest);
    }
  }

  lemma {:induction false} PathOfWalk(costs: seq<seq<real>>, p: seq<int>, q: seq<nat>, steps: nat)
    requires IsMatrix(costs, |p|) && WalkAlong(p, q) && |q| <= steps + 1
    ensures InCosts(costs, q) && PathLength(costs, p, q[0], steps) == Some(WalkLength(costs, q))
    decreases |q|
  {
    AlongInCosts(costs, p, q);
    if |q| > 1 {
      var rest := q[1..];
      assert q == [q[0]] + rest;
      assert GoesTo(p, q[0], q[1]);
      forall i | 0 <= i < |rest| - 1 ensures GoesTo(p, rest[i], rest[i + 1]) {
        assert GoesTo(p, q[i + 1], q[i + 2]);
      }
      PathOfWalk(costs, p, rest, steps - 1);
      OneMoreNode(costs, q[0], rest);
    }
  }

  /** The length is `c` exactly when some list of at most `steps + 1` nodes starts at `v`, follows the
      targets to the first school on it, and its costs add up to `c`. */
  lemma LengthIsOfWalk(costs: seq<seq<real>>, p: seq<int>, v: nat, steps: nat, c: real)
    requires IsMatrix(costs, |p|)
    ensures PathLength(costs, p, v, steps) == Some(c) <==>
            exists q :: WalkAlong(p, q) && q[0] == v && |q| <= steps + 1 && InCosts(costs, q) && WalkLength(costs, q) == c
  {
    if PathLength(costs, p, v, steps) == Some(c) {
      var q := WalkOfPath(costs, p, v, steps);
    }
    forall q | WalkAlong(p, q) && q[0] == v && |q| <= steps + 1 && InCosts(costs, q) && WalkLength(costs, q) == c
      ensures PathLength(costs, p, v, steps) == Some(c)
    {
      PathOfWalk(costs, p, q, steps);
    }
  }

  // ----- n steps decide whether a walk ever ends

  /** The nodes that reach the school within `steps` steps. */
  ghost function Reaching(costs: seq<seq<real>>, p: seq<int>, steps: nat): set<nat>
    requires IsMatrix(costs, |p|)
  {
    set v: nat | v < |p| && PathLength(costs, p, v, steps).Some?
  }

  lemma {:induction false} MoreSteps(costs: seq<seq<real>>, p: seq<int>, v: nat, k: nat, m: nat)
    requires IsMatrix(costs, |p|) && k <= m && PathLength(costs, p, v, k).Some?
    ensures PathLength(costs, p, v, m) == PathLength(costs, p, v, k)
    decreases k
  {
    if v != 0 {
      MoreSteps(costs, p, p[v], k - 1, m - 1);
    }
  }

  lemma {:induction false} Saturated(costs: seq<seq<real>>, p: seq<int>, k: nat, m: nat)
    requires IsMatrix(costs, |p|) && k <= m
    requires Reaching(costs, p, k) == Reaching(costs, p, k + 1)
    ensures Reaching(costs, p, k) == Reaching(costs, p, m)
    decreases m - k
  {
    if k < m {
      NextLevel(costs, p, k);
      Saturated(costs, p, k + 1, m);
    }
  }

  lemma NextLevel(costs: seq<seq<real>>, p: seq<int>, k: nat)
    requires IsMatrix(costs, |p|)
    requires Reaching(costs, p, k) == Reaching(costs, p, k + 1)
    ensures Reaching(costs, p, k + 1) == Reaching(costs, p, k + 2)
  {
    var next, later := Reaching(costs, p, k + 1), Reaching(costs, p, k + 2);
    forall v: nat ensures v in next <==> v in later {
      if v < |p| && v != 0 && 0 <= p[v] < |p| {
        assert p[v] in Reaching(costs, p, k) <==> p[v] in Reaching(costs, p, k + 1);
      }
    }
  }

  lemma {:induction false} LevelsGrow(costs: seq<seq<real>>, p: seq<int>, k: nat)
    requires IsMatrix(costs, |p|) && |p| > 0
    ensures |Reaching(costs, p, k)| > k || Reaching(costs, p, k) == Reaching(costs, p, k + 1)
  {
    var here, next := Reaching(costs, p, k), Reaching(costs, p, k + 1);
    if k == 0 {
      assert 0 in here;
      assert |here| >= |{0 as nat}| by { SubsetCard({0 as nat}, here); }
    } else {
      LevelsGrow(costs, p, k - 1);
      var before := Reaching(costs, p, k - 1);
      forall v | v in before ensures v in here { MoreSteps(costs, p, v, k - 1, k); }
      if before == here {
        NextLevel(costs, p, k - 1);
      } else {
        ProperSubsetCard(before, here);
      }
    }
  }

  /** A walk that ends at all ends within `n` steps, so cutting it off there loses nothing. */
  lemma WalkDecided(costs: seq<seq<real>>, p: seq<int>, v: nat, m: nat)
    requires IsMatrix(costs, |p|) && v < |p| && PathLength(costs, p, v, m).Some?
    ensures PathLength(costs, p, v, |p|) == PathLength(costs, p, v, m)
  {
    var n := |p|;
    if m <= n {
      MoreSteps(costs, p, v, m, n);
    } else {
      LevelsGrow(costs, p, n);
      Bounded(Reaching(costs, p, n), n);
      Saturated(costs, p, n, m);
      assert v in Reaching(costs, p, m);
      MoreSteps(costs, p, v, n, m);
    }
  }
}
