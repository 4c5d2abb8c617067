/** The minimum-spanning-tree program on its own arrays, with cached distances. */
module Prim {
  import opened Graphs
  import opened SpanningTrees
  import opened Flags

  /** The cache is what a scan of the whole cut would find: `d[i]` is the least cost of a link from a
      reached node to `i`, and `whoTo[i]` is a reached node at that cost. */
  ghost predicate Cached(g: Graph, edges: seq<Edge>, d: seq<int>, whoTo: seq<nat>)
    requires ValidGraph(g)
  {
    && |d| == |whoTo| == g.n
    && forall i: nat :: i < g.n ==> CachedAt(g, edges, d, whoTo, i)
  }

  ghost predicate CachedAt(g: Graph, edges: seq<Edge>, d: seq<int>, whoTo: seq<nat>, i: nat)
    requires ValidGraph(g) && |d| == |whoTo| == g.n && i < g.n
  {
    && whoTo[i] < g.n && Reached(edges, whoTo[i]) && d[i] == Cost(g, whoTo[i], i)
    && forall x: nat :: x < g.n && Reached(edges, x) ==> d[i] <= Cost(g, x, i)
  }

  /** The cache after `target` was offered to node `i`. */
  ghost predicate Relaxed(g: Graph, target: nat, d: int, whoTo: nat, d': int, whoTo': nat, i: nat)
    requires ValidGraph(g) && target < g.n && i < g.n
  {
    var w := g.weight[target][i];
    if w != 0 && d > w then d' == w && whoTo' == target else d' == d && whoTo' == whoTo
  }

  lemma CacheUpdated(g: Graph, edges: seq<Edge>, e: Edge, d: seq<int>, whoTo: seq<nat>, d': seq<int>, whoTo': seq<nat>)
    requires ValidGraph(g) && Cached(g, edges, d, whoTo) && e.v < g.n
    requires |d'| == |whoTo'| == g.n
    requires forall i: nat :: i < g.n ==> Relaxed(g, e.v, d[i], whoTo[i], d'[i], whoTo'[i], i)
    ensures Cached(g, edges + [e], d', whoTo')
  {
    forall v: nat ensures Reached(edges + [e], v) <==> Reached(edges, v) || v == e.v {
      ReachedAppend(edges, e, v);
    }
    forall i: nat | i < g.n ensures CachedAt(g, edges + [e], d', whoTo', i) {
      assert CachedAt(g, edges, d, whoTo, i);
      assert Relaxed(g, e.v, d[i], whoTo[i], d'[i], whoTo'[i], i);
    }
  }

  lemma CacheStarted(g: Graph, d: seq<int>, whoTo: seq<nat>)
    requires ValidGraph(g) && |d| == |whoTo| == g.n
    requires forall i: nat :: i < g.n ==> Relaxed(g, 0, INFINITY, 0, d[i], whoTo[i], i)
    ensures Cached(g, [], d, whoTo)
  {
    forall i: nat | i < g.n ensures CachedAt(g, [], d, whoTo, i) {
      assert Relaxed(g, 0, INFINITY, 0, d[i], whoTo[i], i);
    }
  }

  /** The cheapest cached link is a step of Prim's algorithm. */
  lemma CheapestCached(g: Graph, edges: seq<Edge>, d: seq<int>, whoTo: seq<nat>, min: nat)
    requires ValidGraph(g) && Cached(g, edges, d, whoTo) && min < g.n && !Reached(edges, min)
    requires forall i: nat :: i < g.n && !Reached(edges, i) ==> d[min] <= d[i]
    ensures whoTo[min] < g.n && d[min] == Cost(g, whoTo[min], min)
    ensures PrimStep(g, edges, Edge(whoTo[min], min))
  {
    assert CachedAt(g, edges, d, whoTo, min);
    forall x: nat, y: nat | x < g.n && y < g.n && Reached(edges, x) && !Reached(edges, y)
      ensures d[min] <= Cost(g, x, y)
    {
      assert CachedAt(g, edges, d, whoTo, y);
    }
  }

  /** The program's global variables. */
  class PrimSolver {
    const g: Graph
    const inTree: array<bool>
    const d: array<int>
    const whoTo: array<nat>

    ghost predicate Valid()
    {
      ValidGraph(g) && inTree.Length == d.Length == whoTo.Length == g.n
    }

    constructor (g: Graph)
      requires ValidGraph(g)
      ensures Valid() && this.g == g
      ensures fresh(inTree) && fresh(d) && fresh(whoTo)
      ensures forall i :: 0 <= i < g.n ==> whoTo[i] == 0
    {
      this.g := g;
      inTree := new bool[g.n];
      d := new int[g.n];
      whoTo := new nat[g.n](_ => 0);
    }

    /** Offers every node a link to `target`, which has just joined the tree. */
    method UpdateDistances(target: nat)
      requires Valid() && target < g.n
      modifies d, whoTo
      ensures forall i: nat :: i < g.n ==> Relaxed(g, target, old(d[i]), old(whoTo[i]), d[i], whoTo[i], i)
    {
      for i := 0 to g.n
        invariant forall k: nat :: k < i ==> Relaxed(g, target, old(d[k]), old(whoTo[k]), d[k], whoTo[k], k)
        invariant forall k :: i <= k < g.n ==> d[k] == old(d[k]) && whoTo[k] == old(whoTo[k])
      {
        if g.weight[target][i] != 0 && d[i] > g.weight[target][i] {
          d[i] := g.weight[target][i];
          whoTo[i] := target;
        }
      }
    }

    /** The node outside the tree with the smallest cached distance, the first of several. */
    method Nearest() returns (min: int)
      requires Valid() && Unvisited(inTree[..], g.n) > 0
      ensures 0 <= min < g.n && !inTree[min]
      ensures forall i :: 0 <= i < g.n && !inTree[i] ==> d[min] < d[i] || (d[min] == d[i] && min <= i)
    {
      min := -1;
      for i := 0 to g.n
        invariant -1 <= min < i
        invariant min == -1 ==> forall k :: 0 <= k < i ==> inTree[k]
        invariant min != -1 ==> !inTree[min] && forall k :: 0 <= k < i && !inTree[k] ==>
                               d[min] < d[k] || (d[min] == d[k] && min <= k)
      {
        if !inTree[i] {
          if min == -1 || d[min] > d[i] {
            min := i;
          }
        }
      }
      ghost var v := UnvisitedExists(inTree[..], g.n);
    }

    /** The state between two selections: the flags tell which nodes are reached and the cache agrees
        with the whole cut. */
    ghost predicate Selecting(edges: seq<Edge>)
      reads inTree, d, whoTo
      requires Valid()
    {
      && PrimRun(g, edges) && |edges| < g.n
      && Unvisited(inTree[..], g.n) == g.n - |edges| - 1
      && (forall v: nat :: v < g.n ==> (inTree[v] <==> Reached(edges, v)))
      && Cached(g, edges, d[..], whoTo[..])
    }

    /** Everything before the main loop. */
    method Start()
      requires Valid() && forall i :: 0 <= i < g.n ==> whoTo[i] == 0
      modifies inTree, d, whoTo
      ensures Selecting([])
    {
      for i := 0 to g.n
        modifies d
        invariant forall k :: 0 <= k < i ==> d[k] == INFINITY
      {
        d[i] := INFINITY;
      }
      for i := 0 to g.n
        modifies inTree
        invariant forall k :: 0 <= k < i ==> !inTree[k]
      {
        inTree[i] := false;
      }
      inTree[0] := true;
      UnvisitedNone(inTree[..], g.n);
      ghost var before, links := d[..], whoTo[..];
      UpdateDistances(0);
      forall i: nat | i < g.n ensures Relaxed(g, 0, INFINITY, 0, d[..][i], whoTo[..][i], i) {
        assert Relaxed(g, 0, before[i], links[i], d[i], whoTo[i], i);
      }
      CacheStarted(g, d[..], whoTo[..]);
    }

    /** Adds the node `min`, which is nearest to the tree. */
    method Add(min: nat, ghost edges: seq<Edge>) returns (e: Edge, cost: int)
      requires Valid() && Selecting(edges) && min < g.n && !inTree[min]
      requires forall i :: 0 <= i < g.n && !inTree[i] ==> d[min] <= d[i]
      requires |edges| + 1 < g.n
      modifies inTree, d, whoTo
      ensures PrimStep(g, edges, e) && cost == Cost(g, e.u, e.v)
      ensures Selecting(edges + [e])
    {
      e := Edge(whoTo[min], min);
      cost := d[min];
      CheapestCached(g, edges, d[..], whoTo[..], min);
      PrimAppend(g, edges, e);
      UnvisitedAfterVisit(inTree[..], min, g.n);
      ghost var was, before, links := inTree[..], d[..], whoTo[..];
      inTree[min] := true;
      assert inTree[..] == was[min := true];
      UpdateDistances(min);
      CacheUpdated(g, edges, e, before, links, d[..], whoTo[..]);
      forall v: nat | v < g.n ensures inTree[v] <==> Reached(edges + [e], v) {
        ReachedAppend(edges, e, v);
      }
    }

    /** The main program: the edges it prints and the total it reports. */
    method Run() returns (edges: seq<Edge>, total: int)
      requires Valid() && forall i :: 0 <= i < g.n ==> whoTo[i] == 0
      modifies inTree, d, whoTo
      ensures PrimRun(g, edges) && |edges| == g.n - 1
      ensures InGraph(g, edges) && total == Total(g, edges)
    {
      Start();
      total, edges := 0, [];
      for treeSize := 1 to g.n
        invariant |edges| == treeSize - 1 && Selecting(edges)
        invariant InGraph(g, edges) && total == Total(g, edges)
      {
        var min := Nearest();
        var e, cost := Add(min, edges);
        assert (edges + [e])[..|edges|] == edges;
        edges := edges + [e];
        total := total + cost;
      }
    }
  }

  /** What the program is for: the printed edges form a spanning tree exactly when the graph is
      connected. The reported total is their cost and the least of all that span, where a missing edge
      costs `INFINITY`; so for a connected graph it is the weight of a minimum spanning tree. */
  method MinimumTree(g: Graph) returns (edges: seq<Edge>, total: int)
    requires ValidGraph(g)
    ensures SpanningTree(g, edges) <==> Connected(g)
    ensures Spans(g, edges) && total == Total(g, edges)
    ensures forall t :: Spans(g, t) ==> total <= Total(g, t)
    ensures g.n == 1 ==> edges == [] && total == 0
  {
    var solver := new PrimSolver(g);
    edges, total := solver.Run();
    MinimumSpanningTree(g, edges);
  }
}
