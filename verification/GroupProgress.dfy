/** From every reachable state some schedule completes the group, exactly when all tasks call the
    barrier equally often and the initial word does not wrap. */
module GroupProgress {
  import opened Workgroup
  import opened Protocol
  import opened GroupDistance

  /** If nobody can help, every word is free ... */
  lemma AllFree(c: Config, s: State)
    requires Inv(c, s) && s.joiner != JoinWrite
    requires forall t: nat :: t < c.ntasks ==> !Helpful(s, TaskActor(t))
    ensures s.releaseWord != 0 && s.barrierWord != 0 && s.exitWord != 0
    ensures s.exitWord + Count(Exited, s.tasks) == c.ntasks + 1
  {
    hide Count, TasksInv;
    CountMost(ReleaseHolder, s.tasks);
    CountMost(BarrierHolder, s.tasks);
    CountMost(ExitHolder, s.tasks);
    forall t: nat | t < c.ntasks
      ensures !Is(ReleaseHolder, s.tasks[t]) && !Is(BarrierHolder, s.tasks[t]) && !Is(ExitHolder, s.tasks[t])
    {
      assert !Helpful(s, TaskActor(t));
    }
  }

  /** ... so every task is gone or polls in a round that is not released, ... */
  lemma GoneOrRefused(c: Config, s: State, t: nat)
    requires Inv(c, s) && t < c.ntasks && !Helpful(s, TaskActor(t))
    requires s.releaseWord != 0 && s.barrierWord != 0 && s.exitWord != 0
    ensures s.tasks[t].pc.Gone? || Refused(s, t)
  {
    hide Count, WordInv, TasksInv;
    Focus(c, s, t, s.tasks[t]);
  }

  /** ... which they cannot all do, for then the last arriver would be leading, ... */
  lemma NotAllRefused(c: Config, s: State)
    requires Inv(c, s) && c.ntasks > 0
    ensures !forall t: nat :: t < c.ntasks ==> Refused(s, t)
  {
    hide Count, TasksInv, Inv;
    LeaderCounted(c, s);
    CountMost(Arrived(s.finished), s.tasks);
    CountMost(Leader, s.tasks);
    if forall t: nat :: t < c.ntasks ==> Refused(s, t) {
      assert forall t: nat {:trigger s.tasks[t]} :: t < c.ntasks ==> Refused(s, t);
    }
  }

  lemma CallsLeft(c: Config, s: State, t: nat)
    requires Inv(c, s) && t < c.ntasks && (s.tasks[t].pc.Gone? || Refused(s, t))
    ensures s.tasks[t].pc.Gone? <==> c.calls[t] == s.finished
  {
    hide Count, WordInv, TasksInv;
    Focus(c, s, t, s.tasks[t]);
  }

  /** ... and when all call equally often, all are gone. */
  lemma AllGone(c: Config, s: State)
    requires Inv(c, s) && Uniform(c) && forall t: nat :: t < c.ntasks ==> s.tasks[t].pc.Gone? || Refused(s, t)
    ensures forall t: nat :: t < c.ntasks ==> s.tasks[t].pc.Gone?
  {
    hide Count, TasksInv, WordInv;
    forall t: nat | t < c.ntasks ensures s.tasks[t].pc.Gone? <==> c.calls[t] == s.finished {
      CallsLeft(c, s, t);
    }
    if u: nat :| u < c.ntasks && s.tasks[u].pc.Gone? {
      forall t: nat | t < c.ntasks ensures s.tasks[t].pc.Gone? {
        assert c.calls[t] == c.calls[u];
      }
    } else if c.ntasks > 0 {
      NotAllRefused(c, s);
    }
  }

  lemma NobodyHelps(c: Config, s: State)
    requires Inv(c, s) && Uniform(c) && s.joiner != JoinWrite
    requires forall t: nat :: t < c.ntasks ==> !Helpful(s, TaskActor(t))
    ensures s.exitWord == 1 && forall t: nat :: t < c.ntasks ==> s.tasks[t].pc.Gone?
  {
    hide Count, TasksInv, WordInv;
    AllFree(c, s);
    forall t: nat | t < c.ntasks ensures s.tasks[t].pc.Gone? || Refused(s, t) {
      GoneOrRefused(c, s, t);
    }
    AllGone(c, s);
    CountMost(Exited, s.tasks);
  }

  /** Words among those that are polled that somebody holds. */
  function HeldWords(s: State): nat {
    (if s.releaseWord == 0 then 1 else 0) + if s.exitWord == 0 then 1 else 0
  }

  /** A helpful step that does not lower the distance gives back a word. */
  lemma HelpfulStep(c: Config, s: State, a: Actor)
    requires Inv(c, s) && (a.Main? || a.t < c.ntasks) && Helpful(s, a)
    ensures Remaining(c, Step(c, s, a)) < Remaining(c, s)
            || (Remaining(c, Step(c, s, a)) == Remaining(c, s) && HeldWords(Step(c, s, a)) < HeldWords(s))
  {
    hide Remaining, Count, TasksInv;
    StepExact(c, s, a);
    CountMost(Exited, s.tasks);
    if a.TaskActor? && !Lowers(s, a) {
      Focus(c, s, a.t, s.tasks[a.t]);
      ParityAlternates(s.finished);
    }
  }

  /** In every state short of completion somebody can take a helpful step. */
  lemma SomebodyHelps(c: Config, s: State) returns (a: Actor)
    requires Inv(c, s) && Uniform(c) && !Complete(s)
    ensures (a.Main? || a.t < c.ntasks) && Helpful(s, a)
  {
    hide Count, TasksInv, Inv;
    InvShape(c, s);
    if s.joiner == JoinWrite {
      a := Main;
    } else if t: nat :| t < c.ntasks && Helpful(s, TaskActor(t)) {
      a := TaskActor(t);
    } else {
      NobodyHelps(c, s);
      a := Main;
    }
  }

  /** The state after `more` steps from `s`. */
  function Continue(c: Config, s: State, more: seq<Actor>): (s': State)
    requires ValidConfig(c) && |s.tasks| == c.ntasks && Legal(c, more)
    ensures |s'.tasks| == c.ntasks
    decreases |more|
  {
    if |more| == 0 then s else
      assert more[0] in more;
      Continue(c, Step(c, s, more[0]), more[1..])
  }

  lemma {:induction false} ContinueRun(c: Config, schedule: seq<Actor>, more: seq<Actor>)
    requires ValidConfig(c) && Legal(c, schedule) && Legal(c, more)
    ensures Legal(c, schedule + more)
    ensures Run(c, schedule + more) == Continue(c, Run(c, schedule), more)
    decreases |more|
  {
    if |more| == 0 {
      assert schedule + more == schedule;
    } else {
      assert more[0] in more;
      assert (schedule + [more[0]])[..|schedule|] == schedule;
      ContinueRun(c, schedule + [more[0]], more[1..]);
      assert schedule + more == schedule + [more[0]] + more[1..];
    }
  }

  lemma {:induction false} CanComplete(c: Config, s: State) returns (more: seq<Actor>)
    requires Inv(c, s) && Uniform(c)
    ensures Legal(c, more) && Complete(Continue(c, s, more))
    decreases Remaining(c, s), HeldWords(s)
  {
    hide Inv, Remaining, Step, Complete, Uniform, Helpful, HeldWords;
    InvShape(c, s);
    RemainingSign(c, s);
    if Complete(s) {
      more := [];
    } else {
      var a := SomebodyHelps(c, s);
      HelpfulStep(c, s, a);
      StepKeepsInv(c, s, a);
      var rest := CanComplete(c, Step(c, s, a));
      more := [a] + rest;
    }
  }

  /** Progress: whatever happened so far, a group whose tasks call the barrier equally often can be
      scheduled to let all tasks exit and the joiner return. */
  lemma Progress(c: Config, schedule: seq<Actor>)
    requires ValidConfig(c) && Legal(c, schedule) && c.ntasks + 1 < WORD && Uniform(c)
    ensures exists more :: Legal(c, schedule + more) && Complete(Run(c, schedule + more))
  {
    RunInv(c, schedule);
    var more := CanComplete(c, Run(c, schedule));
    ContinueRun(c, schedule, more);
  }

  // ----- and not otherwise

  lemma GoneDone(c: Config, s: State, v: nat)
    requires Inv(c, s) && v < c.ntasks
    ensures s.tasks[v].pc.Gone? ==> c.calls[v] == s.finished
    ensures s.joiner == Joined ==> s.tasks[v].pc.Gone?
  {
    hide Count;
    CountMost(Exited, s.tasks);
  }

  /** A task that calls the barrier more often than another never gets past its extra call. */
  lemma NeverComplete(c: Config, schedule: seq<Actor>)
    requires ValidConfig(c) && Legal(c, schedule) && c.ntasks + 1 < WORD && !Uniform(c)
    ensures Run(c, schedule).joiner != Joined
  {
    RunInv(c, schedule);
    var s := Run(c, schedule);
    var t: nat, u: nat :| t < u < c.ntasks && c.calls[t] != c.calls[u];
    forall v: nat | v < c.ntasks ensures s.joiner == Joined ==> c.calls[v] == s.finished {
      GoneDone(c, s, v);
    }
  }

  /** When ntasks + 1 wraps to 0 both words look held from the start, and stay so. */
  ghost predicate Stuck(c: Config, s: State) {
    && ValidConfig(c) && |s.tasks| == c.ntasks
    && s.exitWord == 0 && s.barrierWord == 0 && s.joiner == JoinRead
    && forall t: nat :: t < c.ntasks ==>
         var pc := s.tasks[t].pc;
         pc.Idle? || pc.PeekRead? || pc.PeekWrite? || pc.SignalRead? || pc.ExitRead?
  }

  lemma {:induction false} WrappedIsStuck(c: Config, schedule: seq<Actor>)
    requires ValidConfig(c) && Legal(c, schedule) && c.ntasks + 1 == WORD
    ensures Stuck(c, Run(c, schedule))
  {
    if |schedule| > 0 {
      WrappedIsStuck(c, schedule[..|schedule| - 1]);
    }
  }

  /** The joiner can return exactly when all tasks call the barrier equally often and the number of
      tasks leaves room in a word; and then it can from every reachable state. */
  lemma JoinReturns(c: Config)
    requires ValidConfig(c)
    ensures (exists schedule :: Legal(c, schedule) && Run(c, schedule).joiner == Joined) <==>
            Uniform(c) && c.ntasks + 1 < 4294967296
  {
    if Uniform(c) && c.ntasks + 1 < WORD {
      Progress(c, []);
    }
    forall schedule | Legal(c, schedule) && Run(c, schedule).joiner == Joined
      ensures Uniform(c) && c.ntasks + 1 < WORD
    {
      if c.ntasks + 1 == WORD {
        WrappedIsStuck(c, schedule);
      } else if !Uniform(c) {
        NeverComplete(c, schedule);
      }
    }
  }
}
