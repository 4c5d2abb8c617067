/** Weighted graphs given by a matrix, spanning trees as lists of edges, and the cuts that decide
    whether a list of edges links all nodes. */
module Graphs {

  /** `weight[i][j]` is 0 when there is no edge between `i` and `j`. */
  datatype Graph = Graph(n: nat, weight: seq<seq<int>>)

  datatype Edge = Edge(u: nat, v: nat)

  const INFINITY: int := 100000

  ghost predicate ValidGraph(g: Graph) {
    && 1 <= g.n <= 100
    && |g.weight| == g.n
    && (forall i :: 0 <= i < g.n ==> |g.weight[i]| == g.n)
    && (forall i, j :: 0 <= i < g.n && 0 <= j < g.n ==> 0 <= g.weight[i][j] < INFINITY)
    && (forall i, j :: 0 <= i < g.n && 0 <= j < g.n ==> g.weight[i][j] == g.weight[j][i])
  }

  /** Price of linking `i` to `j`: the weight of the edge, infinity if there is none. */
  function Cost(g: Graph, i: nat, j: nat): (c: int)
    requires ValidGraph(g) && i < g.n && j < g.n
    ensures 0 < c <= INFINITY
    ensures c < INFINITY <==> g.weight[i][j] != 0
  {
    if g.weight[i][j] == 0 then INFINITY else g.weight[i][j]
  }

  ghost predicate InGraph(g: Graph, edges: seq<Edge>) {
    forall k :: 0 <= k < |edges| ==> edges[k].u < g.n && edges[k].v < g.n
  }

  /** Sum of the costs. */
  function Total(g: Graph, edges: seq<Edge>): int
    requires ValidGraph(g) && InGraph(g, edges)
  {
    if |edges| == 0 then 0
    else
      var e := edges[|edges| - 1];
      Total(g, edges[..|edges| - 1]) + Cost(g, e.u, e.v)
  }

  /** Edges have no direction. */
  ghost predicate Joins(edges: seq<Edge>, a: nat, b: nat) {
    exists k :: 0 <= k < |edges| && (edges[k] == Edge(a, b) || edges[k] == Edge(b, a))
  }

  ghost predicate IsPath(edges: seq<Edge>, p: seq<nat>) {
    |p| > 0 && forall i :: 0 <= i < |p| - 1 ==> Joins(edges, p[i], p[i + 1])
  }

  ghost predicate Linked(edges: seq<Edge>, a: nat, b: nat) {
    exists p :: IsPath(edges, p) && p[0] == a && p[|p| - 1] == b
  }

  ghost predicate LinksAll(edges: seq<Edge>, n: nat) {
    forall a: nat, b: nat :: a < n && b < n ==> Linked(edges, a, b)
  }

  ghost predicate AreEdges(g: Graph, edges: seq<Edge>)
    requires ValidGraph(g)
  {
    InGraph(g, edges) && forall k :: 0 <= k < |edges| ==> g.weight[edges[k].u][edges[k].v] != 0
  }

  /** n - 1 links that link all nodes, whether the graph has these edges or not. */
  ghost predicate Spans(g: Graph, links: seq<Edge>) {
    |links| == g.n - 1 && InGraph(g, links) && LinksAll(links, g.n)
  }

  /** n - 1 edges of the graph that link all its nodes. */
  ghost predicate SpanningTree(g: Graph, edges: seq<Edge>)
    requires ValidGraph(g)
  {
    Spans(g, edges) && AreEdges(g, edges)
  }

  ghost predicate Connected(g: Graph)
    requires ValidGraph(g)
  {
    exists edges :: AreEdges(g, edges) && LinksAll(edges, g.n)
  }

  // ----- cuts

  /** Some edge has exactly one end in `x`. */
  ghost predicate Crosses(edges: seq<Edge>, x: set<nat>) {
    exists k :: 0 <= k < |edges| && (edges[k].u in x) != (edges[k].v in x)
  }

  ghost predicate CutProperty(edges: seq<Edge>, n: nat) {
    forall x: set<nat>, a: nat, b: nat :: a < n && b < n && a in x && b !in x ==> Crosses(edges, x)
  }

  /** Along a path that changes sides some edge crosses. */
  lemma {:induction false} PathCrosses(edges: seq<Edge>, p: seq<nat>, x: set<nat>)
    requires IsPath(edges, p) && (p[0] in x) != (p[|p| - 1] in x)
    ensures Crosses(edges, x)
  {
    assert Joins(edges, p[0], p[1]);
    if (p[0] in x) == (p[1] in x) {
      forall i | 0 <= i < |p[1..]| - 1 ensures Joins(edges, p[1..][i], p[1..][i + 1]) {
        assert Joins(edges, p[i + 1], p[i + 2]);
      }
      PathCrosses(edges, p[1..], x);
    }
  }

  lemma LinksAllCuts(edges: seq<Edge>, n: nat)
    requires LinksAll(edges, n)
    ensures CutProperty(edges, n)
  {
    forall x: set<nat>, a: nat, b: nat | a < n && b < n && a in x && b !in x ensures Crosses(edges, x) {
      assert Linked(edges, a, b);
      var p :| IsPath(edges, p) && p[0] == a && p[|p| - 1] == b;
      PathCrosses(edges, p, x);
    }
  }

  lemma PathExtends(edges: seq<Edge>, a: nat, b: nat, c: nat)
    requires Linked(edges, a, b) && Joins(edges, b, c)
    ensures Linked(edges, a, c)
  {
    var p :| IsPath(edges, p) && p[0] == a && p[|p| - 1] == b;
    var q := p + [c];
    forall i | 0 <= i < |q| - 1 ensures Joins(edges, q[i], q[i + 1]) {
      if i < |p| - 1 { assert Joins(edges, p[i], p[i + 1]); }
    }
    assert IsPath(edges, q);
  }

  /** Edges that cross every cut of the nodes link all of them. */
  lemma CutsLinkAll(edges: seq<Edge>, n: nat)
    requires CutProperty(edges, n) && forall k :: 0 <= k < |edges| ==> edges[k].u < n && edges[k].v < n
    ensures LinksAll(edges, n)
  {
    forall a: nat, b: nat | a < n && b < n ensures Linked(edges, a, b) {
      var x := set v: nat | v < n && Linked(edges, a, v);
      assert IsPath(edges, [a]);
      assert Linked(edges, a, a) by { assert [a][0] == a; }
      if !Linked(edges, a, b) {
        assert a in x && b !in x;
        var k :| 0 <= k < |edges| && (edges[k].u in x) != (edges[k].v in x);
        assert Joins(edges, edges[k].u, edges[k].v) && Joins(edges, edges[k].v, edges[k].u);
        if edges[k].u in x {
          PathExtends(edges, a, edges[k].u, edges[k].v);
        } else {
          PathExtends(edges, a, edges[k].v, edges[k].u);
        }
        assert false;
      }
    }
  }

  // ----- sums

  /** The total of two lists together. */
  lemma {:induction false} TotalAppend(g: Graph, s: seq<Edge>, t: seq<Edge>)
    requires ValidGraph(g) && InGraph(g, s) && InGraph(g, t)
    ensures InGraph(g, s + t) && Total(g, s + t) == Total(g, s) + Total(g, t)
    decreases |t|
  {
    if |t| == 0 {
      assert s + t == s;
    } else {
      var last := |t| - 1;
      assert (s + t)[..|s| + last] == s + t[..last];
      TotalAppend(g, s, t[..last]);
    }
  }

  /** Of a single link: its weight in the matrix, 100000 if the graph has no such edge. */
  lemma TotalOne(g: Graph, e: Edge)
    requires ValidGraph(g) && e.u < g.n && e.v < g.n
    ensures InGraph(g, [e])
    ensures Total(g, [e]) == if g.weight[e.u][e.v] == 0 then 100000 else g.weight[e.u][e.v]
  {
    assert [e][..0] == [];
  }

  lemma {:induction false} TotalUpdate(g: Graph, edges: seq<Edge>, i: nat, e: Edge)
    requires ValidGraph(g) && InGraph(g, edges) && i < |edges| && e.u < g.n && e.v < g.n
    ensures InGraph(g, edges[i := e])
    ensures Total(g, edges[i := e]) == Total(g, edges) - Cost(g, edges[i].u, edges[i].v) + Cost(g, e.u, e.v)
  {
    hide Cost;
    var last := |edges| - 1;
    if i < last {
      assert edges[i := e][..last] == edges[..last][i := e];
      TotalUpdate(g, edges[..last], i, e);
    } else {
      assert edges[i := e][..last] == edges[..last];
    }
  }
}
