/** The solver's tree-building loop, on its own arrays, proved to make a greedy run. */
module FirstPass {
  import opened Arcs
  import opened ArcSort
  import opened GreedyTree
  import opened WorkList
  import opened Flags

  lemma {:induction false} Triangle(n: nat, visited: nat)
    requires visited <= n
    ensures StillToQueue(n, visited) == if visited == n then 0 else (n - visited) * (n - visited - 1) / 2
    decreases n - visited
  {
    if visited < n {
      Triangle(n, visited + 1);
      var m := n - visited;
      assert m * (m - 1) == (m - 1) * (m - 2) + 2 * (m - 1);
    }
  }

  /** Everything ever queued fits the program's fixed array. */
  lemma {:induction false} Capacity(n: nat, visited: nat)
    requires visited <= n <= MAX_NODES
    ensures StillToQueue(n, visited) <= MAX_NODES * (n - visited)
    decreases n - visited
  {
    if visited < n {
      Capacity(n, visited + 1);
    }
  }

  /** Appends one arc from `i` to every node outside the tree. The result says whether the list now
      needs sorting because of it. */
  method QueueArcs(inst: Instance, inTree: array<bool>, base: real, i: nat, allNew: bool,
                   queue: array<Arc>, count: nat) returns (newCount: nat, pushed: bool)
    requires WellFormed(inst) && inTree.Length == inst.n && i < inst.n
    requires count + Unvisited(inTree[..], inst.n) <= queue.Length
    modifies queue
    ensures newCount == count + Unvisited(inTree[..], inst.n)
    ensures queue[..newCount] == old(queue[..count]) + NewArcs(inst, inTree[..], base, i, allNew, inst.n)
    ensures pushed <==> newCount != count
  {
    newCount, pushed := count, false;
    for j := 0 to inst.n
      invariant newCount == count + Unvisited(inTree[..], j)
      invariant Unvisited(inTree[..], j) <= Unvisited(inTree[..], inst.n)
      invariant queue[..newCount] == old(queue[..count]) + NewArcs(inst, inTree[..], base, i, allNew, j)
      invariant pushed <==> newCount != count
    {
      UnvisitedGrows(inTree[..], j + 1, inst.n);
      if !inTree[j] {
        queue[newCount] := NewArc(inst, base, i, j, allNew);
        newCount := newCount + 1;
        pushed := true;
      }
    }
  }

  /** State of the queue after `visited` nodes are in the tree, once it has been filled. */
  ghost predicate QueueReady(inst: Instance, arcs: seq<Arc>, queue: seq<Arc>, order: bool)
    requires WellFormed(inst)
  {
    && OnlyCandidates(inst, arcs, queue)
    && AllEligible(inst, arcs, queue)
    && (!order ==> Ordered(queue))
  }

  lemma SortKeepsQueue(inst: Instance, arcs: seq<Arc>, s: seq<Arc>, t: seq<Arc>)
    requires WellFormed(inst) && QueueReady(inst, arcs, s, true)
    requires multiset(s) == multiset(t) && Ordered(t)
    ensures QueueReady(inst, arcs, t, false)
  {
    forall x ensures x in s <==> x in t {
      assert x in s <==> x in multiset(s);
      assert x in t <==> x in multiset(t);
    }
  }

  /** The queue cannot run dry before every node is visited, so it is refilled once at most. */
  lemma NeverDry(inst: Instance, arcs: seq<Arc>, inTree: seq<bool>, branched: seq<int>, minDist: seq<real>)
    requires WellFormed(inst) && GreedyRun(inst, arcs)
    requires TreeArrays(inst, arcs, inTree, branched, minDist) && Unvisited(inTree, inst.n) > 0
    ensures !AllEligible(inst, arcs, [])
  {
    var v := UnvisitedExists(inTree, inst.n);
    if AllEligible(inst, arcs, []) {
      SchoolArcQueued(inst, arcs, [], v);
    }
  }

  lemma OnlyCandidatesPart(inst: Instance, arcs: seq<Arc>, rest: seq<Arc>, x: Arc)
    requires WellFormed(inst) && OnlyCandidates(inst, arcs, rest + [x])
    ensures OnlyCandidates(inst, arcs, rest)
    ensures x.a < inst.n && x.b < inst.n
  {
    assert x in rest + [x];
    forall y | y in rest ensures y in rest + [x] {}
  }

  /** Sorts the first `count` entries. */
  method SortQueue(inst: Instance, queue: array<Arc>, count: nat, ghost arcs: seq<Arc>)
    requires WellFormed(inst) && count <= queue.Length
    requires QueueReady(inst, arcs, queue[..count], true)
    modifies queue
    ensures QueueReady(inst, arcs, queue[..count], false)
  {
    ghost var before := queue[..];
    QuickSort(queue, 0, count - 1);
    ghost var after := queue[..];
    assert before[0..count] == before[..count] && after[0..count] == after[..count];
    assert Ordered(after[..count]);
    assert queue[..count] == after[..count];
    SortKeepsQueue(inst, arcs, before[..count], after[..count]);
  }

  /** The local state of the program's main loop. */
  class TreeBuilder {
    const inst: Instance
    const inTree: array<bool>
    const branched: array<int>
    const minDist: array<real>
    const queuedArcs: array<Arc>
    const mspArcs: array<Arc>
    var visited: nat
    var branches: nat
    var queuedArcsCount: nat
    var mspArcsCount: nat
    var order: bool

    ghost var queued: nat      // arcs ever queued
    ghost var iterations: nat  // iterations of the main loop
    ghost var refills: nat     // times the queue was filled from the whole tree

    ghost function Selected(): seq<Arc>
      reads this`mspArcsCount, mspArcs
      requires mspArcsCount <= mspArcs.Length
    {
      mspArcs[..mspArcsCount]
    }

    ghost function Queue(): seq<Arc>
      reads this`queuedArcsCount, queuedArcs
      requires queuedArcsCount <= queuedArcs.Length
    {
      queuedArcs[..queuedArcsCount]
    }

    ghost predicate Shape()
      reads this`visited, this`mspArcsCount, this`queuedArcsCount
    {
      && WellFormed(inst)
      && inTree.Length == branched.Length == minDist.Length == inst.n
      && queuedArcs.Length == MAX_NODES * MAX_NODES && mspArcs.Length == MAX_NODES
      && queuedArcs != mspArcs
      && visited == mspArcsCount + 1 <= inst.n
      && queuedArcsCount <= queuedArcs.Length
    }

    /** The tree part of the state: a greedy run and arrays that describe it. */
    ghost predicate TreeValid()
      reads this`visited, this`branches, this`mspArcsCount, this`queuedArcsCount
      reads inTree, branched, minDist, mspArcs
      requires Shape()
    {
      TreeFacts(inst, Selected(), branches, inTree[..], branched[..], minDist[..])
    }

    /** The queue part: before the first refill it is empty, afterwards it covers what can be taken. */
    ghost predicate QueueValid()
      reads this, queuedArcs, mspArcs
      requires Shape()
    {
      && refills <= 1
      && iterations + queuedArcsCount == refills + queued
      && (refills == 0 ==> queuedArcsCount == 0 && visited == 1 && queued == 0)
      && (refills == 1 ==> QueueReady(inst, Selected(), Queue(), order))
      && (refills == 1 ==> inst.n > 1)
      && (refills == 1 ==> queued + StillToQueue(inst.n, visited) == StillToQueue(inst.n, 0))
    }

    ghost predicate Valid()
      reads this, inTree, branched, minDist, queuedArcs, mspArcs
    {
      Shape() && TreeValid() && QueueValid()
    }

    constructor (inst: Instance)
      requires WellFormed(inst)
      ensures Valid() && this.inst == inst && refills == 0
      ensures fresh(inTree) && fresh(branched) && fresh(minDist) && fresh(queuedArcs) && fresh(mspArcs)
    {
      this.inst := inst;
      var n := inst.n;
      var flags := new bool[n](i => i == 0);
      inTree := flags;
      branched := new int[n](_ => 0);
      minDist := new real[n](_ => 0.0);
      queuedArcs := new Arc[MAX_NODES * MAX_NODES];
      mspArcs := new Arc[MAX_NODES];
      queuedArcsCount, mspArcsCount, branches, order := 0, 0, 0, false;
      visited := 1;
      queued, iterations, refills := 0, 0, 0;
      new;
      UnvisitedNone(inTree[..], n);
    }

    /** Sorts if something was queued since the last sort, and takes the last arc. */
    method Pop() returns (poppedArc: Arc)
      requires Shape() && queuedArcsCount > 0 && QueueReady(inst, Selected(), Queue(), order)
      modifies this`queuedArcsCount, this`order, queuedArcs
      ensures Shape() && queuedArcsCount == old(queuedArcsCount) - 1 && !order
      ensures QueueReady(inst, Selected(), Queue() + [poppedArc], false)
    {
      if order {
        SortQueue(inst, queuedArcs, queuedArcsCount, Selected());
        order := false;
      }
      ghost var queue := Queue();
      poppedArc := queuedArcs[queuedArcsCount - 1];
      queuedArcsCount := queuedArcsCount - 1;
      assert Queue() + [poppedArc] == queue;
    }

    /** Puts the popped arc into the tree. */
    method AddToTree(poppedArc: Arc)
      requires Shape() && TreeValid() && visited < inst.n
      requires GreedyStep(inst, Selected(), poppedArc)
      modifies this`visited, this`branches, this`mspArcsCount, inTree, branched, minDist, mspArcs
      ensures Shape() && TreeValid()
      ensures visited == old(visited) + 1
      ensures Selected() == old(Selected()) + [poppedArc]
      ensures minDist[poppedArc.b] == poppedArc.dist
    {
      hide GreedyRun, Unvisited, LinesOpened, TreeArrays;
      ghost var arcs := Selected();
      var visitedNode := poppedArc.b;
      VisitKeepsFacts(inst, arcs, poppedArc, branches, inTree[..], branched[..], minDist[..]);
      inTree[visitedNode] := true;
      visited := visited + 1;
      mspArcs[mspArcsCount] := poppedArc;
      mspArcsCount := mspArcsCount + 1;
      if poppedArc.branch == 0 {
        branches := branches + 1;
      }
      branched[poppedArc.a] := branched[poppedArc.a] + 1;
      minDist[visitedNode] := poppedArc.dist;
      assert Selected() == arcs + [poppedArc];
      assert inTree[..] == old(inTree[..])[visitedNode := true];
      assert branched[..] == old(branched[..])[poppedArc.a := old(branched[poppedArc.a]) + 1];
      assert minDist[..] == old(minDist[..])[visitedNode := poppedArc.dist];
    }

    /** Puts the popped arc into the tree and queues the arcs of the node it enters. */
    method Visit(poppedArc: Arc)
      requires Shape() && TreeValid() && visited < inst.n && !order
      requires GreedyStep(inst, Selected(), poppedArc)
      requires QueueReady(inst, Selected(), Queue() + [poppedArc], false)
      requires queuedArcsCount + inst.n - visited - 1 <= queuedArcs.Length
      modifies this`visited, this`branches, this`queuedArcsCount, this`mspArcsCount, this`order
      modifies inTree, branched, minDist, queuedArcs, mspArcs
      ensures Shape() && TreeValid()
      ensures visited == old(visited) + 1
      ensures Selected() == old(Selected()) + [poppedArc]
      ensures QueueReady(inst, Selected(), Queue(), order)
      ensures queuedArcsCount == old(queuedArcsCount) + inst.n - visited
    {
      hide GreedyRun, OnlyCandidates, AllEligible, Ordered, InTree, ChildCount, LinesOpened, NewArcs, Unvisited;
      ghost var arcs, rest := Selected(), Queue();
      var visitedNode := poppedArc.b;
      OrderedPrefix(rest + [poppedArc]);
      assert (rest + [poppedArc])[..|rest|] == rest;
      OnlyCandidatesPart(inst, arcs, rest, poppedArc);
      AddToTree(poppedArc);
      VisitKeepsQueue(inst, arcs, poppedArc, rest, inTree[..]);
      var pushed;
      queuedArcsCount, pushed := QueueArcs(inst, inTree, minDist[visitedNode], visitedNode, false,
                                           queuedArcs, queuedArcsCount);
      assert !pushed ==> Queue() == rest;
      if pushed { order := true; }
    }

    /** Queues the arcs of every node of the tree, all marked as opening a line. */
    method Refill()
      requires Valid() && queuedArcsCount == 0 && visited < inst.n
      modifies this`queuedArcsCount, this`order, this`queued, this`refills, queuedArcs
      ensures old(refills) == 0 && refills == 1
      ensures Shape() && queued == queuedArcsCount == inst.n - 1 && order
      ensures QueueReady(inst, Selected(), Queue(), true)
    {
      hide GreedyRun, OnlyCandidates, AllEligible, Ordered, Unvisited, LinesOpened, ChildCount, NewArcs;
      NeverDry(inst, Selected(), inTree[..], branched[..], minDist[..]);
      assert refills == 0 by {
        assert Queue() == [];
      }
      assert Selected() == [];
      RefillFromSchool(inst, inTree[..]);
      for i := 0 to inst.n
        invariant queuedArcsCount == if i == 0 then 0 else inst.n - 1
        invariant i > 0 ==> Queue() == NewArcs(inst, inTree[..], 0.0, 0, true, inst.n) && order
        invariant Shape()
      {
        if inTree[i] {
          assert i == 0;
          var pushed;
          queuedArcsCount, pushed := QueueArcs(inst, inTree, minDist[i], i, true, queuedArcs, queuedArcsCount);
          if pushed { order := true; }
        }
      }
      refills := 1;
      queued := inst.n - 1;
    }

    /** Between taking `poppedArc` from the queue and deciding about it. */
    ghost predicate Popped(poppedArc: Arc)
      reads this, inTree, branched, minDist, queuedArcs, mspArcs
    {
      && Shape() && TreeValid() && visited < inst.n && !order
      && QueueReady(inst, Selected(), Queue() + [poppedArc], false)
      && iterations + queuedArcsCount + 1 == refills + queued
      && refills == 1
      && queued + StillToQueue(inst.n, visited) == StillToQueue(inst.n, 0)
    }

    /** The popped arc passes the guard and is taken. */
    method Accept(poppedArc: Arc)
      requires Popped(poppedArc)
      requires !InTree(Selected(), poppedArc.b) && !(ChildCount(Selected(), poppedArc.a) > 0 && poppedArc.branch == 1)
      modifies this, inTree, branched, minDist, queuedArcs, mspArcs
      ensures Valid() && refills == old(refills)
      ensures queuedArcsCount + StillToQueue(inst.n, visited) == old(queuedArcsCount + StillToQueue(inst.n, visited))
    {
      hide GreedyRun, TreeFacts, OnlyCandidates, AllEligible, GreedyStep, InTree, ChildCount, Ordered;
      Capacity(inst.n, 0);
      AcceptedArc(inst, Selected(), Queue() + [poppedArc]);
      Visit(poppedArc);
      queued := queued + (inst.n - visited);
      iterations := iterations + 1;
    }

    /** The popped arc fails the guard: its end is reached already, or its start has a child. */
    method Reject(poppedArc: Arc)
      requires Popped(poppedArc)
      requires InTree(Selected(), poppedArc.b) || (ChildCount(Selected(), poppedArc.a) > 0 && poppedArc.branch == 1)
      modifies this`iterations
      ensures Valid()
    {
      hide GreedyRun, TreeFacts, OnlyCandidates, AllEligible, GreedyStep, InTree, ChildCount, Ordered;
      ghost var queue := Queue() + [poppedArc];
      assert queue[..|queue| - 1] == Queue() && queue[|queue| - 1] == poppedArc;
      RejectedArc(inst, Selected(), queue);
      OrderedPrefix(queue);
      iterations := iterations + 1;
    }

    /** One iteration with a non-empty queue: pop, and visit unless the guard fails. */
    method TakeArc()
      requires Valid() && queuedArcsCount > 0 && visited < inst.n
      modifies this, inTree, branched, minDist, queuedArcs, mspArcs
      ensures Valid() && refills == old(refills)
      ensures queuedArcsCount + StillToQueue(inst.n, visited)
              == old(queuedArcsCount + StillToQueue(inst.n, visited)) - 1
    {
      hide GreedyRun, TreeFacts, OnlyCandidates, AllEligible, InTree, ChildCount, Ordered;
      var poppedArc := Pop();
      OnlyCandidatesPart(inst, Selected(), Queue(), poppedArc);
      GuardMeaning(inst, Selected(), branches, inTree[..], branched[..], minDist[..], poppedArc);
      var visitedNode := poppedArc.b;
      if !inTree[visitedNode] && !(branched[poppedArc.a] > 0 && poppedArc.branch == 1) {
        Accept(poppedArc);
      } else {
        Reject(poppedArc);
      }
    }

    /** One iteration of the main loop. */
    method Iterate()
      requires Valid() && visited < inst.n
      modifies this, inTree, branched, minDist, queuedArcs, mspArcs
      ensures Valid()
      ensures old(refills) <= refills
      ensures old(refills) == refills ==>
                queuedArcsCount + StillToQueue(inst.n, visited)
                == old(queuedArcsCount + StillToQueue(inst.n, visited)) - 1
    {
      if queuedArcsCount > 0 {
        TakeArc();
      } else {
        Refill();
        iterations := iterations + 1;
      }
    }

    method Run()
      requires Valid()
      modifies this, inTree, branched, minDist, queuedArcs, mspArcs
      ensures Valid() && visited == inst.n
    {
      while visited < inst.n
        invariant Valid()
        decreases 1 - refills, queuedArcsCount + StillToQueue(inst.n, visited)
      {
        Iterate();
      }
    }
  }

  /** The first pass of the program, from the instance to the arcs of the tree. */
  method BuildTree(inst: Instance)
    returns (mspArcs: array<Arc>, mspArcsCount: nat, branches: nat,
             branched: array<int>, minDist: array<real>,
             ghost queued: nat, ghost iterations: nat, ghost refills: nat)
    requires WellFormed(inst)
    ensures fresh(mspArcs) && fresh(branched) && fresh(minDist)
    ensures mspArcsCount <= mspArcs.Length
    ensures SpansGreedily(inst, mspArcs[..mspArcsCount])
    ensures branches == LinesOpened(mspArcs[..mspArcsCount])
    ensures branched.Length == minDist.Length == inst.n
    ensures forall v: nat :: v < inst.n ==> branched[v] == ChildCount(mspArcs[..mspArcsCount], v)
    ensures forall v: nat :: v < inst.n ==> minDist[v] == MinDist(mspArcs[..mspArcsCount], v)
    ensures refills == if inst.n == 1 then 0 else 1
    ensures queued == inst.n * (inst.n - 1) / 2
    ensures iterations <= refills + queued
  {
    var builder := new TreeBuilder(inst);
    builder.Run();
    Triangle(inst.n, 0);
    Triangle(inst.n, inst.n);
    mspArcs, mspArcsCount, branches := builder.mspArcs, builder.mspArcsCount, builder.branches;
    branched, minDist := builder.branched, builder.minDist;
    queued, iterations, refills := builder.queued, builder.iterations, builder.refills;
  }
}
