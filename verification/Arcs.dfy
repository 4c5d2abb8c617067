/** The data of the walking-bus solver: an instance, an arc record, and the order in which arcs
    are taken from the work-list. */
module Arcs {

  /** `n` counts the school (node 0). `dist` is the distance matrix and `danger[i][j]` the danger
      of walking from `i` to `j`. */
  datatype Instance = Instance(n: nat, alpha: real, dist: seq<seq<real>>, danger: seq<seq<real>>)

  /** `branch` is 0 when taking the arc opens a new line, 1 when it extends one. */
  datatype Arc = Arc(a: nat, b: nat, branch: int, dist: real, danger: real)

  const MAX_NODES: nat := 301

  ghost predicate IsMatrix(m: seq<seq<real>>, n: nat) {
    |m| == n && forall i :: 0 <= i < n ==> |m[i]| == n
  }

  /** What the program reads: both matrices are n by n, and n fits the fixed arrays. */
  ghost predicate WellFormed(inst: Instance) {
    && 1 <= inst.n <= MAX_NODES
    && IsMatrix(inst.dist, inst.n)
    && IsMatrix(inst.danger, inst.n)
  }

  /** A distance matrix as computed from coordinates: symmetric, zero diagonal, not negative. */
  ghost predicate IsDistance(m: seq<seq<real>>, n: nat)
    requires IsMatrix(m, n)
  {
    && (forall i :: 0 <= i < n ==> m[i][i] == 0.0)
    && (forall i, j :: 0 <= i < n && 0 <= j < n ==> m[i][j] == m[j][i])
    && (forall i, j :: 0 <= i < n && 0 <= j < n ==> m[i][j] >= 0.0)
  }

  /** `d` is the distance between the points (x, y) and (u, v). */
  ghost predicate Apart(d: real, x: int, y: int, u: int, v: int) {
    d >= 0.0 && d * d == ((x - u) * (x - u) + (y - v) * (y - v)) as real
  }

  /** The distance matrix that the program computes for nodes at the integer coordinates (xs[i], ys[i]). */
  ghost predicate FromCoordinates(m: seq<seq<real>>, n: nat, xs: seq<int>, ys: seq<int>)
    requires IsMatrix(m, n)
  {
    && |xs| == |ys| == n
    && forall i, j :: 0 <= i < n && 0 <= j < n ==> Apart(m[i][j], xs[i], ys[i], xs[j], ys[j])
  }

  lemma SameSquare(x: real, y: real)
    requires x >= 0.0 && y >= 0.0 && x * x == y * y
    ensures x == y
  {
    if x + y > 0.0 {
      assert (x - y) * (x + y) == 0.0;
      assert x - y == (x - y) * (x + y) / (x + y);
    }
  }

  lemma ApartBothWays(d: real, e: real, x: int, y: int, u: int, v: int)
    requires Apart(d, x, y, u, v) && Apart(e, u, v, x, y)
    ensures d == e
    ensures x == u && y == v ==> d == 0.0
  {
    assert (x - u) * (x - u) == (u - x) * (u - x) && (y - v) * (y - v) == (v - y) * (v - y);
    SameSquare(d, e);
    if x == u && y == v {
      SameSquare(d, 0.0);
    }
  }

  /** Distances computed from coordinates are what the rest of this project asks of distances. */
  lemma CoordinatesGiveDistance(m: seq<seq<real>>, n: nat, xs: seq<int>, ys: seq<int>)
    requires IsMatrix(m, n) && FromCoordinates(m, n, xs, ys)
    ensures IsDistance(m, n)
  {
    forall i, j | 0 <= i < n && 0 <= j < n ensures m[i][j] >= 0.0 {
      assert Apart(m[i][j], xs[i], ys[i], xs[j], ys[j]);
    }
    forall i, j | 0 <= i < n && 0 <= j < n ensures m[i][j] == m[j][i] {
      assert Apart(m[i][j], xs[i], ys[i], xs[j], ys[j]) && Apart(m[j][i], xs[j], ys[j], xs[i], ys[i]);
      ApartBothWays(m[i][j], m[j][i], xs[i], ys[i], xs[j], ys[j]);
    }
    forall i | 0 <= i < n ensures m[i][i] == 0.0 {
      assert Apart(m[i][i], xs[i], ys[i], xs[i], ys[i]);
      ApartBothWays(m[i][i], m[i][i], xs[i], ys[i], xs[i], ys[i]);
    }
  }

  /** The instances the challenge poses: true distances and a limit of at least the direct walk. */
  ghost predicate ValidInstance(inst: Instance) {
    WellFormed(inst) && IsDistance(inst.dist, inst.n) && inst.alpha >= 1.0
  }

  /** `x` is to be taken before `y`: fewer new lines, then shorter, then safer. */
  predicate LessThan(x: Arc, y: Arc) {
    if x.branch > y.branch then true
    else if x.branch < y.branch then false
    else if x.dist < y.dist then true
    else if x.dist > y.dist then false
    else x.danger < y.danger
  }

  /** Arcs that come later in the list are taken first. */
  ghost predicate Ordered(q: seq<Arc>) {
    forall i, k :: 0 <= i < k < |q| ==> !LessThan(q[i], q[k])
  }

  lemma OrderIsStrictWeak(x: Arc, y: Arc, z: Arc)
    ensures !LessThan(x, x)
    ensures LessThan(x, y) && LessThan(y, z) ==> LessThan(x, z)
    ensures LessThan(x, y) ==> LessThan(x, z) || LessThan(z, y)
  {
  }

  /** The record queued for walking `j` to `i` when `i` is `base` away from the school. An arc that
      would push `j` over its limit cannot extend a line, and neither can one marked `allNew`. */
  function NewArc(inst: Instance, base: real, i: nat, j: nat, allNew: bool): (x: Arc)
    requires WellFormed(inst) && i < inst.n && j < inst.n
  {
    var nodeDistance := base + inst.dist[i][j];
    Arc(i, j, if allNew || nodeDistance > inst.dist[0][j] * inst.alpha then 0 else 1,
        nodeDistance, inst.danger[j][i])
  }

  lemma LimitAboveDirect(alpha: real, direct: real)
    requires alpha >= 1.0 && direct >= 0.0
    ensures direct <= direct * alpha
  {
    assert direct * alpha - direct == direct * (alpha - 1.0);
  }
}
