/** Why fairness has to be about helpful steps: a leader that always looks while the poller holds the
    release word never gets it, however often it steps. */
module GroupStarvation {
  import opened Workgroup
  import opened GroupDistance

  /** Two tasks, one barrier call each. */
  function Pair(): Config {
    Config(2, [1, 1])
  }

  /** Task 0 polls, task 1 leads the round and is about to take the release word. */
  function Starving(): State {
    State(3, 3, 2, [Task(WaitRead, 1, 2, 0), Task(ReleaseRead, 1, 1, 0)], JoinRead, 3, 0)
  }

  /** Task 0 takes the release word, task 1 sees 0, task 0 gives the word back; the joiner polls. */
  function Cycle(): seq<Actor> {
    [TaskActor(0), TaskActor(1), TaskActor(0), Main, Main]
  }

  function Repeated(k: nat): seq<Actor> {
    if k == 0 then [] else Cycle() + Repeated(k - 1)
  }

  lemma Extend(c: Config, schedule: seq<Actor>, a: Actor) returns (longer: seq<Actor>)
    requires ValidConfig(c) && Legal(c, schedule) && (a.Main? || a.t < c.ntasks)
    ensures longer == schedule + [a] && Legal(c, longer)
    ensures Run(c, longer) == Step(c, Run(c, schedule), a)
  {
    longer := schedule + [a];
    assert longer[..|longer| - 1] == schedule;
  }

  /** Task 0 arrives and has polled once. */
  lemma ReachPolling() returns (p: seq<Actor>)
    ensures Legal(Pair(), p)
    ensures Run(Pair(), p) == State(3, 2, 2, [Task(WaitRead, 1, 2, 0), Task(Idle, 0, 0, 0)], JoinRead, 0, 0)
  {
    hide Run;
    var c, other := Pair(), Task(Idle, 0, 0, 0);
    p := [];
    assert Run(c, p) == State(3, 3, 2, [Task(Idle, 0, 0, 0), other], JoinRead, 0, 0) by { SpawnedPair(); }
    p := Extend(c, p, TaskActor(0));
    assert Run(c, p) == State(3, 3, 2, [Task(PeekRead, 0, 0, 0), other], JoinRead, 0, 0);
    p := Extend(c, p, TaskActor(0));
    assert Run(c, p) == State(3, 3, 0, [Task(PeekWrite, 0, 2, 0), other], JoinRead, 0, 0);
    p := Extend(c, p, TaskActor(0));
    assert Run(c, p) == State(3, 3, 2, [Task(SignalRead, 1, 2, 0), other], JoinRead, 0, 0);
    p := Extend(c, p, TaskActor(0));
    assert Run(c, p) == State(3, 0, 2, [Task(SignalWrite, 1, 3, 0), other], JoinRead, 0, 0);
    p := Extend(c, p, TaskActor(0));
    assert Run(c, p) == State(3, 2, 2, [Task(WaitRead, 1, 3, 0), other], JoinRead, 0, 0);
    p := Extend(c, p, TaskActor(0));
    assert Run(c, p) == State(3, 2, 0, [Task(WaitWrite, 1, 2, 0), other], JoinRead, 0, 0);
    p := Extend(c, p, TaskActor(0));
  }

  lemma SpawnedPair()
    ensures ValidConfig(Pair()) && Legal(Pair(), [])
    ensures Run(Pair(), []) == State(3, 3, 2, [Task(Idle, 0, 0, 0), Task(Idle, 0, 0, 0)], JoinRead, 0, 0)
  {
  }

  lemma ReachStarving() returns (p: seq<Actor>)
    ensures Legal(Pair(), p) && Run(Pair(), p) == Starving()
  {
    hide Run;
    var c, poller := Pair(), Task(WaitRead, 1, 2, 0);
    p := ReachPolling();
    p := Extend(c, p, TaskActor(1));
    assert Run(c, p) == State(3, 2, 2, [poller, Task(PeekRead, 0, 0, 0)], JoinRead, 0, 0);
    p := Extend(c, p, TaskActor(1));
    assert Run(c, p) == State(3, 2, 0, [poller, Task(PeekWrite, 0, 2, 0)], JoinRead, 0, 0);
    p := Extend(c, p, TaskActor(1));
    assert Run(c, p) == State(3, 2, 2, [poller, Task(SignalRead, 1, 2, 0)], JoinRead, 0, 0);
    p := Extend(c, p, TaskActor(1));
    assert Run(c, p) == State(3, 0, 2, [poller, Task(SignalWrite, 1, 2, 0)], JoinRead, 0, 0);
    p := Extend(c, p, TaskActor(1));
    assert Run(c, p) == State(3, 1, 2, [poller, Task(ResetRead, 1, 2, 0)], JoinRead, 0, 0);
    p := Extend(c, p, TaskActor(1));
    assert Run(c, p) == State(3, 0, 2, [poller, Task(ResetWrite, 1, 1, 0)], JoinRead, 0, 0);
    p := Extend(c, p, TaskActor(1));
    assert Run(c, p) == State(3, 3, 2, [poller, Task(ReleaseRead, 1, 1, 0)], JoinRead, 0, 0);
    p := Extend(c, p, Main);
    p := Extend(c, p, Main);
  }

  lemma OneCycle(schedule: seq<Actor>)
    requires Legal(Pair(), schedule) && Run(Pair(), schedule) == Starving()
    ensures Legal(Pair(), schedule + Cycle()) && Run(Pair(), schedule + Cycle()) == Starving()
  {
    hide Run;
    var c := Pair();
    var leader := Task(ReleaseRead, 1, 1, 0);
    var p := Extend(c, schedule, TaskActor(0));
    assert Run(c, p) == State(3, 3, 0, [Task(WaitWrite, 1, 2, 0), leader], JoinRead, 3, 0);
    p := Extend(c, p, TaskActor(1));
    p := Extend(c, p, TaskActor(0));
    assert Run(c, p) == Starving();
    p := Extend(c, p, Main);
    p := Extend(c, p, Main);
    assert p == schedule + Cycle();
  }

  lemma {:induction false} Cycles(schedule: seq<Actor>, k: nat)
    requires Legal(Pair(), schedule) && Run(Pair(), schedule) == Starving()
    ensures Legal(Pair(), schedule + Repeated(k)) && Run(Pair(), schedule + Repeated(k)) == Starving()
    decreases k
  {
    hide Run, Legal, Starving, Cycle;
    if k == 0 {
      assert schedule + [] == schedule;
    } else {
      OneCycle(schedule);
      Cycles(schedule + Cycle(), k - 1);
      assert schedule + Cycle() + Repeated(k - 1) == schedule + Repeated(k);
    }
  }

  /** In a group that can complete, a schedule that lets every actor step again and again need not
      complete it, however long it is. */
  lemma FairButStuck() returns (prefix: seq<Actor>)
    ensures ValidConfig(Pair()) && Uniform(Pair())
    ensures Legal(Pair(), prefix) && TaskActor(0) in Cycle() && TaskActor(1) in Cycle() && Main in Cycle()
    ensures forall k: nat :: Legal(Pair(), prefix + Repeated(k)) && !Complete(Run(Pair(), prefix + Repeated(k)))
  {
    prefix := ReachStarving();
    assert Cycle()[0] == TaskActor(0) && Cycle()[1] == TaskActor(1) && Cycle()[3] == Main;
    forall k: nat ensures Legal(Pair(), prefix + Repeated(k)) && !Complete(Run(Pair(), prefix + Repeated(k))) {
      Cycles(prefix, k);
    }
  }
}
