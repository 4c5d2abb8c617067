/** The number of leaves the program prints after its second pass is that of the first pass. An
    instance on which the judge counts fewer: the second pass moves a stop off the school. */
module ReportedLeaves {
  import opened Arcs
  import opened GreedyTree
  import opened Checker
  import opened Counting
  import opened DangerPass
  import opened WalkingBus

  /** The school at the origin and four stops on one line through it. */
  function Places(): seq<int> { [0, -5, 8, -3, 1] }

  function Example(): (inst: Instance) {
    Instance(5, 1.5,
             [[0.0, 5.0, 8.0, 3.0, 1.0],
              [5.0, 0.0, 13.0, 2.0, 6.0],
              [8.0, 13.0, 0.0, 11.0, 7.0],
              [3.0, 2.0, 11.0, 0.0, 4.0],
              [1.0, 6.0, 7.0, 4.0, 0.0]],
             [[1.0, 1.0, 1.0, 1.0, 1.0],
              [1.0, 1.0, 1.0, 1.0, 2.0],
              [2.0, 1.0, 1.0, 1.0, 1.0],
              [1.0, 1.0, 1.0, 1.0, 1.0],
              [1.0, 1.0, 1.0, 1.0, 1.0]])
  }

  /** The program can receive this instance: its distances are those of the coordinates. */
  lemma ExampleReceivable()
    ensures ValidInstance(Example())
    ensures FromCoordinates(Example().dist, 5, Places(), [0, 0, 0, 0, 0])
  {
    hide Apart;
    var m, xs, ys := Example().dist, Places(), [0, 0, 0, 0, 0];
    forall i, j | 0 <= i < 5 && 0 <= j < 5 ensures Apart(m[i][j], xs[i], ys[i], xs[j], ys[j]) {
      assert m[i][j] == Between(xs[i], xs[j]);
    }
    CoordinatesGiveDistance(m, 5, xs, ys);
  }

  function Between(x: int, u: int): (d: real)
    ensures Apart(d, x, 0, u, 0)
  {
    if x < u then (u - x) as real else (x - u) as real
  }

  /** The only greedy tree: the lines 4-1, 3 and 2. */
  function FirstTree(): seq<Arc> {
    [Arc(0, 4, 0, 1.0, 1.0), Arc(4, 1, 1, 7.0, 2.0), Arc(0, 3, 0, 3.0, 1.0), Arc(0, 2, 0, 8.0, 2.0)]
  }

  lemma Step0(x: Arc)
    requires GreedyStep(Example(), [], x)
    ensures x == FirstTree()[0]
  {
    var y := Candidate(Example(), [], 0, 4);
    assert Eligible(Example(), [], y);
  }

  lemma Step1(x: Arc)
    requires GreedyStep(Example(), FirstTree()[..1], x)
    ensures x == FirstTree()[1]
  {
    var arcs := FirstTree()[..1];
    assert arcs == [FirstTree()[0]] && arcs[..0] == [];
    Facts(arcs);
    assert arcs[0].b == 4;
    var y := Candidate(Example(), arcs, 4, 1);
    assert Eligible(Example(), arcs, y);
  }

  /** The counters of a tree of at most three arcs, written out. */
  lemma Facts(arcs: seq<Arc>)
    requires |arcs| <= 3
    ensures forall v: nat :: MinDist(arcs, v) ==
              if |arcs| > 2 && arcs[2].b == v then arcs[2].dist
              else if |arcs| > 1 && arcs[1].b == v then arcs[1].dist
              else if |arcs| > 0 && arcs[0].b == v then arcs[0].dist
              else 0.0
    ensures forall u: nat :: ChildCount(arcs, u) ==
              (if |arcs| > 0 && arcs[0].a == u then 1 else 0) +
              (if |arcs| > 1 && arcs[1].a == u then 1 else 0) +
              (if |arcs| > 2 && arcs[2].a == u then 1 else 0)
    ensures forall v: nat :: InTree(arcs, v) <==>
              || v == 0 || (|arcs| > 0 && arcs[0].b == v)
              || (|arcs| > 1 && arcs[1].b == v) || (|arcs| > 2 && arcs[2].b == v)
  {
    if |arcs| > 0 {
      var last := |arcs| - 1;
      Facts(arcs[..last]);
    }
  }

  lemma Step2(x: Arc)
    requires GreedyStep(Example(), FirstTree()[..2], x)
    ensures x == FirstTree()[2]
  {
    var arcs := FirstTree()[..2];
    assert arcs == [FirstTree()[0], FirstTree()[1]];
    Facts(arcs);
    assert Eligible(Example(), arcs, Candidate(Example(), arcs, 0, 3));
  }

  lemma Step3(x: Arc)
    requires GreedyStep(Example(), FirstTree()[..3], x)
    ensures x == FirstTree()[3]
  {
    var arcs := FirstTree()[..3];
    assert arcs == [FirstTree()[0], FirstTree()[1], FirstTree()[2]];
    Facts(arcs);
    assert Eligible(Example(), arcs, Candidate(Example(), arcs, 0, 2));
  }

  lemma OnlyTree(first: seq<Arc>)
    requires SpansGreedily(Example(), first)
    ensures first == FirstTree()
  {
    var x := FirstTree();
    assert first[..0] == [];
    Step0(first[0]);
    assert first[..1] == x[..1];
    Step1(first[1]);
    assert first[..2] == x[..2];
    Step2(first[2]);
    assert first[..3] == x[..3];
    Step3(first[3]);
  }

  // ----- the second pass on it

  function MinDistances(): seq<real> { [0.0, 7.0, 8.0, 3.0, 1.0] }

  function Start(): PassState { PassState(FirstTree(), [3, 0, 0, 0, 1]) }

  /** Stop 1 moved from 4 to 3. */
  function Middle(): PassState {
    PassState(FirstTree()[1 := Arc(3, 1, 1, 5.0, 1.0)], [3, 0, 0, 1, 0])
  }

  /** Stop 2 moved from the school to 4, which is a leaf now. */
  function End(): PassState {
    PassState(Middle().arcs[3 := Arc(4, 2, 0, 8.0, 1.0)], [2, 0, 0, 1, 1])
  }

  lemma StartIsFirst()
    ensures Distances(Example(), FirstTree()) == MinDistances()
    ensures PassState(FirstTree(), Children(Example(), FirstTree())) == Start()
  {
    var x := FirstTree();
    assert x[..3] == [x[0], x[1], x[2]];
    Facts(x[..3]);
    forall v: nat | v < 5 ensures MinDist(x, v) == MinDistances()[v] && ChildCount(x, v) == Start().branched[v] {}
    assert Distances(Example(), x) == MinDistances();
    assert Children(Example(), x) == Start().branched;
  }

  lemma SecondArc()
    ensures InBounds(Example(), MinDistances(), Start())
    ensures TryMoves(Example(), MinDistances(), Start(), 1, 5) == Middle()
  {
    var inst, d, st := Example(), MinDistances(), Start();
    assert TryMoves(inst, d, st, 1, 0) == st;
    assert TryMoves(inst, d, st, 1, 1) == st;
    assert TryMoves(inst, d, st, 1, 2) == st;
    assert TryMoves(inst, d, st, 1, 3) == st;
    assert TryMoves(inst, d, st, 1, 4) == Middle();
  }

  lemma FourthArc()
    ensures InBounds(Example(), MinDistances(), Middle())
    ensures TryMoves(Example(), MinDistances(), Middle(), 3, 5) == End()
  {
    var inst, d, st := Example(), MinDistances(), Middle();
    assert TryMoves(inst, d, st, 3, 0) == st;
    assert TryMoves(inst, d, st, 3, 1) == st;
    assert TryMoves(inst, d, st, 3, 2) == st;
    assert TryMoves(inst, d, st, 3, 3) == st;
    assert TryMoves(inst, d, st, 3, 4) == st;
  }

  lemma PassOnExample()
    ensures InBounds(Example(), MinDistances(), Start())
    ensures Pass(Example(), MinDistances(), Start(), 4) == End()
  {
    var inst, d, st := Example(), MinDistances(), Start();
    SecondArc();
    FourthArc();
    assert Pass(inst, d, st, 1) == st;
    assert Pass(inst, d, st, 2) == Middle();
    assert Pass(inst, d, st, 3) == Middle();
  }

  /** On the example the program reports three leaves whatever tree it builds, and the judge accepts
      its solution with two. `ReportedLeavesRight` says when the report is right. */
  lemma ReportTooHigh(first: seq<Arc>)
    requires SpansGreedily(Example(), first)
    ensures InRange(5, Written(first)) && LinesOpened(first) == 3
    ensures Leaves(Written(SecondPass(Example(), first)), 5) == 2
    ensures Accepts(5, 1.5, Example().dist, Written(SecondPass(Example(), first)))
  {
    ExampleReceivable();
    OnlyTree(first);
    BothPassesAccepted(Example(), first);
    StartIsFirst();
    PassOnExample();
    CountsOnExample();
  }

  lemma CountsOnExample()
    ensures LinesOpened(FirstTree()) == 3
    ensures MovedOff(FirstTree(), End().arcs) == 1
  {
    var x, y := FirstTree(), End().arcs;
    assert x[..3][..2][..1] == x[..1] && x[..3][..2] == x[..2];
    assert y[..3][..2][..1] == y[..1] && y[..3][..2] == y[..2];
    assert MovedOff(x[..1], y[..1]) == 0;
    assert MovedOff(x[..2], y[..2]) == 0;
    assert MovedOff(x[..3], y[..3]) == 0;
    assert LinesOpened(x[..1]) == 1;
    assert LinesOpened(x[..2]) == 1;
    assert LinesOpened(x[..3]) == 2;
  }
}
