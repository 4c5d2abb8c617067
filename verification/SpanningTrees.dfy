/** Prim's algorithm as a sequence of choices, and why the choices add up to a minimum: the exchange
    argument. */
module SpanningTrees {
  import opened Graphs
  import opened Sets

  /** The nodes reached: node 0 and the second end of each chosen edge. */
  ghost predicate Reached(edges: seq<Edge>, v: nat) {
    v == 0 || exists k :: 0 <= k < |edges| && edges[k].v == v
  }

  /** `e` leads from a reached node to an unreached one, and no such link is cheaper. */
  ghost predicate PrimStep(g: Graph, edges: seq<Edge>, e: Edge)
    requires ValidGraph(g)
  {
    && e.u < g.n && e.v < g.n && Reached(edges, e.u) && !Reached(edges, e.v)
    && forall x: nat, y: nat :: x < g.n && y < g.n && Reached(edges, x) && !Reached(edges, y) ==>
         Cost(g, e.u, e.v) <= Cost(g, x, y)
  }

  ghost predicate PrimRun(g: Graph, edges: seq<Edge>)
    requires ValidGraph(g)
  {
    forall k {:trigger edges[..k]} :: 0 <= k < |edges| ==> PrimStep(g, edges[..k], edges[k])
  }

  lemma PrimAppend(g: Graph, edges: seq<Edge>, e: Edge)
    requires ValidGraph(g) && PrimRun(g, edges) && PrimStep(g, edges, e)
    ensures PrimRun(g, edges + [e])
  {
    forall k | 0 <= k < |edges + [e]| ensures PrimStep(g, (edges + [e])[..k], (edges + [e])[k]) {
      assert (edges + [e])[..k] == edges[..k];
      assert edges[..|edges|] == edges;
    }
  }

  lemma RunInGraph(g: Graph, edges: seq<Edge>)
    requires ValidGraph(g) && PrimRun(g, edges)
    ensures InGraph(g, edges)
    ensures forall i, k :: 0 <= i < k < |edges| ==> edges[i].v != edges[k].v
    ensures forall k :: 0 <= k < |edges| ==> edges[k].v != 0
  {
    forall k | 0 <= k < |edges| ensures edges[k].u < g.n && edges[k].v < g.n && edges[k].v != 0 {
      assert PrimStep(g, edges[..k], edges[k]);
    }
    forall i, k | 0 <= i < k < |edges| ensures edges[i].v != edges[k].v {
      assert PrimStep(g, edges[..k], edges[k]);
      assert edges[..k][i] == edges[i];
    }
  }

  /** Both ends of the edges chosen so far are reached. */
  lemma EndsReached(g: Graph, edges: seq<Edge>, k: nat, i: nat)
    requires ValidGraph(g) && PrimRun(g, edges) && i < k <= |edges|
    ensures Reached(edges[..k], edges[i].u) && Reached(edges[..k], edges[i].v)
  {
    assert PrimStep(g, edges[..i], edges[i]);
    assert edges[..k][i] == edges[i];
    if edges[i].u != 0 {
      var m :| 0 <= m < i && edges[..i][m].v == edges[i].u;
      assert edges[..k][m].v == edges[i].u;
    }
  }

  /** A cut that separates two reached nodes is crossed by an edge chosen so far. */
  lemma {:induction false} ReachedTogether(g: Graph, edges: seq<Edge>, k: nat, x: set<nat>, a: nat)
    requires ValidGraph(g) && PrimRun(g, edges) && k <= |edges|
    requires Reached(edges[..k], a) && (0 in x) != (a in x)
    ensures Crosses(edges[..k], x)
    decreases k
  {
    var i :| 0 <= i < k && edges[..k][i].v == a;
    assert PrimStep(g, edges[..i], edges[i]);
    if (edges[i].u in x) != (a in x) {
      assert edges[..k][i] == edges[i];
    } else {
      ReachedTogether(g, edges, i, x, edges[i].u);
      CrossesMore(edges, i, k, x);
    }
  }

  lemma CrossesMore(edges: seq<Edge>, i: nat, k: nat, x: set<nat>)
    requires i <= k <= |edges| && Crosses(edges[..i], x)
    ensures Crosses(edges[..k], x)
  {
    var m :| 0 <= m < i && (edges[..i][m].u in x) != (edges[..i][m].v in x);
    assert edges[..k][m] == edges[..i][m];
  }

  /** The first link of a path that enters the reached nodes from outside. */
  lemma {:induction false} Entry(edges: seq<Edge>, chosen: seq<Edge>, p: seq<nat>) returns (i: nat)
    requires IsPath(edges, p) && !Reached(chosen, p[0]) && Reached(chosen, p[|p| - 1])
    ensures 0 < i < |p| && Reached(chosen, p[i])
    ensures forall m: nat :: m < i ==> !Reached(chosen, p[m])
  {
    i := 1;
    while !Reached(chosen, p[i])
      invariant 0 < i < |p|
      invariant forall m: nat :: m < i ==> !Reached(chosen, p[m])
      decreases |p| - i
    {
      i := i + 1;
    }
  }

  // ----- the exchange

  /** In the links `t`, which start with the first `k` choices, edge `f` can make place for choice `k`:
      `f` enters the reached nodes at `x` from `y`, and `y` hangs together with the choice's end. */
  ghost predicate Replaceable(edges: seq<Edge>, k: nat, t: seq<Edge>, f: nat, x: nat, y: nat, p: seq<nat>)
    requires k < |edges| <= |t|
  {
    && t[..k] == edges[..k] && k <= f < |t|
    && (t[f] == Edge(x, y) || t[f] == Edge(y, x))
    && Reached(edges[..k], x) && !Reached(edges[..k], y)
    && IsPath(t, p) && p[0] == edges[k].v && p[|p| - 1] == y
    && forall m :: 0 <= m < |p| ==> !Reached(edges[..k], p[m])
  }

  lemma PrefixReached(g: Graph, edges: seq<Edge>, k: nat, t: seq<Edge>)
    requires ValidGraph(g) && PrimRun(g, edges) && k <= |edges| && k <= |t| && t[..k] == edges[..k]
    ensures forall m: nat :: m < k ==> Reached(edges[..k], t[m].u) && Reached(edges[..k], t[m].v)
  {
    forall m: nat | m < k ensures Reached(edges[..k], t[m].u) && Reached(edges[..k], t[m].v) {
      EndsReached(g, edges, k, m);
      assert edges[..k][m] == t[..k][m];
    }
  }

  lemma FindReplaceable(g: Graph, edges: seq<Edge>, k: nat, t: seq<Edge>) returns (f: nat, x: nat, y: nat, p: seq<nat>)
    requires ValidGraph(g) && PrimRun(g, edges) && k < |edges| == g.n - 1
    requires Spans(g, t) && t[..k] == edges[..k]
    ensures Replaceable(edges, k, t, f, x, y, p)
    ensures x < g.n && y < g.n
  {
    var chosen := edges[..k];
    PrefixReached(g, edges, k, t);
    assert PrimStep(g, chosen, edges[k]);
    hide PrimRun, PrimStep, Reached;
    assert Linked(t, edges[k].v, edges[k].u);
    var q :| IsPath(t, q) && q[0] == edges[k].v && q[|q| - 1] == edges[k].u;
    var i := Entry(t, chosen, q);
    assert Joins(t, q[i - 1], q[i]);
    x, y, p := q[i], q[i - 1], q[..i];
    f :| 0 <= f < |t| && (t[f] == Edge(y, x) || t[f] == Edge(x, y));
    forall m | 0 <= m < |p| - 1 ensures Joins(t, p[m], p[m + 1]) {
      assert Joins(t, q[m], q[m + 1]);
    }
  }

  /** Swapping the replaced edge to position `k` and writing the choice there. */
  function Exchanged(t: seq<Edge>, k: nat, f: nat, e: Edge): seq<Edge>
    requires k <= f < |t|
  {
    t[f := t[k]][k := e]
  }

  /** Every edge of the old tree but the replaced one is in the new tree. */
  lemma StillThere(t: seq<Edge>, k: nat, f: nat, e: Edge, m: nat) returns (m': nat)
    requires k <= f < |t| && m < |t| && m != f
    ensures m' < |t| && Exchanged(t, k, f, e)[m'] == t[m]
  {
    m' := if m == k then f else m;
  }

  /** A path outside the reached nodes does not use the replaced edge, so a cut that separates its
      ends is still crossed. */
  lemma {:induction false} OutsideTogether(edges: seq<Edge>, k: nat, t: seq<Edge>, f: nat, x: nat, y: nat,
                                           p: seq<nat>, c: set<nat>)
    requires k < |edges| <= |t| && k <= f < |t|
    requires (t[f] == Edge(x, y) || t[f] == Edge(y, x)) && Reached(edges[..k], x)
    requires IsPath(t, p) && forall m :: 0 <= m < |p| ==> !Reached(edges[..k], p[m])
    requires (p[0] in c) != (p[|p| - 1] in c)
    ensures Crosses(Exchanged(t, k, f, edges[k]), c)
  {
    assert Joins(t, p[0], p[1]);
    if (p[0] in c) != (p[1] in c) {
      var m :| 0 <= m < |t| && (t[m] == Edge(p[0], p[1]) || t[m] == Edge(p[1], p[0]));
      assert m != f;
      var m' := StillThere(t, k, f, edges[k], m);
    } else {
      forall m | 0 <= m < |p[1..]| - 1 ensures Joins(t, p[1..][m], p[1..][m + 1]) {
        assert Joins(t, p[m + 1], p[m + 2]);
      }
      OutsideTogether(edges, k, t, f, x, y, p[1..], c);
    }
  }

  /** A cut that separates reached nodes is crossed by a choice, which the new tree still has. */
  lemma InsideTogether(g: Graph, edges: seq<Edge>, k: nat, t: seq<Edge>, f: nat, a: nat, b: nat, c: set<nat>)
    requires ValidGraph(g) && PrimRun(g, edges) && k < |edges| <= |t| && k <= f < |t| && t[..k] == edges[..k]
    requires Reached(edges[..k], a) && Reached(edges[..k], b) && (a in c) != (b in c)
    ensures Crosses(Exchanged(t, k, f, edges[k]), c)
  {
    if (0 in c) != (a in c) {
      ReachedTogether(g, edges, k, c, a);
    } else {
      ReachedTogether(g, edges, k, c, b);
    }
    var m :| 0 <= m < k && (edges[..k][m].u in c) != (edges[..k][m].v in c);
    assert t[..k][m] == t[m];
    var m' := StillThere(t, k, f, edges[k], m);
  }

  lemma ExchangeCrosses(g: Graph, edges: seq<Edge>, k: nat, t: seq<Edge>, f: nat, x: nat, y: nat, p: seq<nat>, c: set<nat>)
    requires ValidGraph(g) && PrimRun(g, edges) && k < |edges| <= |t|
    requires Replaceable(edges, k, t, f, x, y, p) && Crosses(t, c)
    ensures Crosses(Exchanged(t, k, f, edges[k]), c)
  {
    var e := edges[k];
    assert PrimStep(g, edges[..k], e);
    var m :| 0 <= m < |t| && (t[m].u in c) != (t[m].v in c);
    if m != f {
      var m' := StillThere(t, k, f, e, m);
    } else if (e.v in c) != (y in c) {
      OutsideTogether(edges, k, t, f, x, y, p, c);
    } else if (e.u in c) != (x in c) {
      InsideTogether(g, edges, k, t, f, e.u, x, c);
    } else {
      assert Exchanged(t, k, f, e)[k] == e;
    }
  }

  /** One exchange: a list of links that spans and agrees with the first `k` choices becomes one
      that agrees with one choice more and is not heavier. */
  lemma Exchange(g: Graph, edges: seq<Edge>, k: nat, t: seq<Edge>) returns (t': seq<Edge>)
    requires ValidGraph(g) && PrimRun(g, edges) && k < |edges| == g.n - 1
    requires Spans(g, t) && t[..k] == edges[..k]
    ensures Spans(g, t') && t'[..k + 1] == edges[..k + 1]
    ensures Total(g, t') <= Total(g, t)
  {
    var f, x, y, p := FindReplaceable(g, edges, k, t);
    var e := edges[k];
    t' := Exchanged(t, k, f, e);
    assert t'[..k + 1] == t[..k] + [e] && edges[..k + 1] == edges[..k] + [e];
    ExchangeCost(g, edges, k, t, f, x, y);
    LinksAllCuts(t, g.n);
    forall c: set<nat>, a: nat, b: nat | a < g.n && b < g.n && a in c && b !in c ensures Crosses(t', c) {
      ExchangeCrosses(g, edges, k, t, f, x, y, p, c);
    }
    CutsLinkAll(t', g.n);
  }

  lemma ExchangeCost(g: Graph, edges: seq<Edge>, k: nat, t: seq<Edge>, f: nat, x: nat, y: nat)
    requires ValidGraph(g) && PrimRun(g, edges) && k < |edges| <= |t| && k <= f < |t|
    requires InGraph(g, t) && x < g.n && y < g.n && (t[f] == Edge(x, y) || t[f] == Edge(y, x))
    requires Reached(edges[..k], x) && !Reached(edges[..k], y)
    ensures InGraph(g, Exchanged(t, k, f, edges[k]))
    ensures Total(g, Exchanged(t, k, f, edges[k])) <= Total(g, t)
  {
    var e := edges[k];
    assert PrimStep(g, edges[..k], e);
    assert Cost(g, e.u, e.v) <= Cost(g, x, y) == Cost(g, t[f].u, t[f].v);
    TotalUpdate(g, t, f, t[k]);
    TotalUpdate(g, t[f := t[k]], k, e);
  }

  /** Links that span can be exchanged into the chosen edges without getting heavier. */
  lemma {:induction false} NotHeavier(g: Graph, edges: seq<Edge>, k: nat, t: seq<Edge>)
    requires ValidGraph(g) && PrimRun(g, edges) && k <= |edges| == g.n - 1
    requires Spans(g, t) && t[..k] == edges[..k]
    ensures InGraph(g, edges) && Total(g, edges) <= Total(g, t)
    decreases |edges| - k
  {
    if k == |edges| {
      assert t[..k] == t && edges[..k] == edges;
    } else {
      var t' := Exchange(g, edges, k, t);
      NotHeavier(g, edges, k + 1, t');
    }
  }

  // ----- the choices link everything

  ghost function ReachedSet(g: Graph, edges: seq<Edge>): set<nat> {
    set v: nat | v < g.n && Reached(edges, v)
  }

  lemma {:induction false} ReachedCard(g: Graph, edges: seq<Edge>, k: nat)
    requires ValidGraph(g) && PrimRun(g, edges) && k <= |edges|
    ensures |ReachedSet(g, edges[..k])| == k + 1
  {
    if k == 0 {
      assert ReachedSet(g, edges[..0]) == {0};
    } else {
      var before, e := edges[..k - 1], edges[k - 1];
      assert PrimStep(g, before, e);
      ReachedCard(g, edges, k - 1);
      assert edges[..k] == before + [e];
      OneMoreReached(g, before, e);
    }
  }

  lemma OneMoreReached(g: Graph, edges: seq<Edge>, e: Edge)
    requires e.v < g.n && !Reached(edges, e.v)
    ensures |ReachedSet(g, edges + [e])| == |ReachedSet(g, edges)| + 1
  {
    forall v: nat ensures Reached(edges + [e], v) <==> Reached(edges, v) || v == e.v {
      ReachedAppend(edges, e, v);
    }
    assert ReachedSet(g, edges + [e]) == ReachedSet(g, edges) + {e.v};
  }

  lemma ReachedAppend(edges: seq<Edge>, e: Edge, v: nat)
    ensures Reached(edges + [e], v) <==> Reached(edges, v) || v == e.v
  {
    if Reached(edges, v) && v != 0 {
      var k :| 0 <= k < |edges| && edges[k].v == v;
      assert (edges + [e])[k].v == v;
    }
    assert (edges + [e])[|edges|] == e;
  }

  lemma AllReached(g: Graph, edges: seq<Edge>, v: nat)
    requires ValidGraph(g) && PrimRun(g, edges) && |edges| == g.n - 1 && v < g.n
    ensures Reached(edges, v)
  {
    ReachedCard(g, edges, |edges|);
    assert edges[..|edges|] == edges;
    if !Reached(edges, v) {
      var more := ReachedSet(g, edges) + {v};
      Bounded(more, g.n);
    }
  }

  lemma ChoicesLinkAll(g: Graph, edges: seq<Edge>)
    requires ValidGraph(g) && PrimRun(g, edges) && |edges| == g.n - 1
    ensures InGraph(g, edges) && LinksAll(edges, g.n)
  {
    RunInGraph(g, edges);
    assert edges[..|edges|] == edges;
    forall c: set<nat>, a: nat, b: nat | a < g.n && b < g.n && a in c && b !in c ensures Crosses(edges, c) {
      AllReached(g, edges, a);
      AllReached(g, edges, b);
      ReachedTogether(g, edges, |edges|, c, if 0 in c then b else a);
    }
    CutsLinkAll(edges, g.n);
  }

  /** In a connected graph every choice is an edge: some edge leaves the reached nodes. */
  lemma ChoicesAreEdges(g: Graph, edges: seq<Edge>, k: nat)
    requires ValidGraph(g) && Connected(g) && PrimRun(g, edges) && k < |edges|
    ensures edges[k].u < g.n && edges[k].v < g.n && g.weight[edges[k].u][edges[k].v] != 0
  {
    var chosen, e := edges[..k], edges[k];
    assert PrimStep(g, chosen, e);
    var all: seq<Edge> :| AreEdges(g, all) && LinksAll(all, g.n);
    LinksAllCuts(all, g.n);
    var c := ReachedSet(g, chosen);
    assert 0 in c && e.v !in c;
    var m :| 0 <= m < |all| && (all[m].u in c) != (all[m].v in c);
    if all[m].u in c {
      assert Cost(g, e.u, e.v) <= Cost(g, all[m].u, all[m].v);
    } else {
      assert Cost(g, e.u, e.v) <= Cost(g, all[m].v, all[m].u);
    }
  }

  /** Prim's choices form a spanning tree exactly when the graph is connected. Connected or not, nothing
      that spans is lighter, a missing edge counting as `INFINITY`. */
  lemma MinimumSpanningTree(g: Graph, edges: seq<Edge>)
    requires ValidGraph(g) && PrimRun(g, edges) && |edges| == g.n - 1
    ensures InGraph(g, edges)
    ensures SpanningTree(g, edges) <==> Connected(g)
    ensures Spans(g, edges)
    ensures forall t :: Spans(g, t) ==> Total(g, edges) <= Total(g, t)
  {
    ChoicesLinkAll(g, edges);
    if Connected(g) {
      forall k | 0 <= k < |edges| ensures g.weight[edges[k].u][edges[k].v] != 0 {
        ChoicesAreEdges(g, edges, k);
      }
    }
    forall t | Spans(g, t) ensures Total(g, edges) <= Total(g, t) {
      NotHeavier(g, edges, 0, t);
    }
  }
}
