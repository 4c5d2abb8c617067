/** Safety of barrier and join, over every schedule. */
module GroupSafety {
  import opened Workgroup
  import opened Protocol

  /** No task has passed its k-th barrier before every task has called its k-th; so two tasks are at
      most one round apart. */
  lemma BarrierSafety(c: Config, schedule: seq<Actor>, t: nat, u: nat)
    requires ValidConfig(c) && Legal(c, schedule) && c.ntasks + 1 < WORD && t < c.ntasks && u < c.ntasks
    ensures var s := Run(c, schedule);
            s.tasks[t].done <= s.finished <= Called(s.tasks[u]) && s.tasks[t].done <= s.tasks[u].done + 1
  {
    RunInv(c, schedule);
  }

  /** The release word carries the parity of the finished rounds, in the word itself or with the one
      task that holds it, until the leader of the next round replaces it. */
  lemma ReleaseParity(c: Config, schedule: seq<Actor>)
    requires ValidConfig(c) && Legal(c, schedule) && c.ntasks + 1 < WORD
    ensures var s := Run(c, schedule);
            && (s.releaseWord != 0 ==> s.releaseWord == Parity(s.finished))
            && (forall t: nat :: t < c.ntasks && (s.tasks[t].pc.PeekWrite? || s.tasks[t].pc.WaitWrite?) ==>
                  s.tasks[t].value == Parity(s.finished))
            && (forall t: nat :: t < c.ntasks && s.tasks[t].pc.ReleaseWrite? ==>
                  s.tasks[t].go == Parity(s.finished + 1))
  {
    RunInv(c, schedule);
  }

  /** A task polling for its release leaves exactly when its own round has been released. */
  lemma ReleasedExactly(c: Config, schedule: seq<Actor>, t: nat)
    requires ValidConfig(c) && Legal(c, schedule) && c.ntasks + 1 < WORD && t < c.ntasks
    requires Run(c, schedule).tasks[t].pc.WaitWrite?
    ensures var s := Run(c, schedule);
            TaskStep(c, s, t).tasks[t].done == s.tasks[t].done + 1 <==> s.finished == s.tasks[t].done + 1
  {
    RunInv(c, schedule);
    PolledValue(c, Run(c, schedule), t);
  }

  lemma PolledValue(c: Config, s: State, t: nat)
    requires Inv(c, s) && t < c.ntasks && s.tasks[t].pc.WaitWrite?
    ensures TaskStep(c, s, t).tasks[t].done == s.tasks[t].done + 1 <==> s.finished == s.tasks[t].done + 1
  {
    hide Count, WordInv;
    Focus(c, s, t, s.tasks[t]);
  }

  /** Exactly one task holds a word that reads 0. */
  lemma ZeroMeansHeld(c: Config, schedule: seq<Actor>)
    requires ValidConfig(c) && Legal(c, schedule) && c.ntasks + 1 < WORD
    ensures var s := Run(c, schedule);
            && (s.releaseWord == 0 <==> exists t: nat :: t < c.ntasks && Is(ReleaseHolder, s.tasks[t]))
            && (s.barrierWord == 0 <==> exists t: nat :: t < c.ntasks && Is(BarrierHolder, s.tasks[t]))
            && (s.exitWord == 0 <==> s.joiner == JoinWrite || exists t: nat :: t < c.ntasks && Is(ExitHolder, s.tasks[t]))
            && (s.joiner == JoinWrite ==> forall t: nat :: t < c.ntasks ==> !Is(ExitHolder, s.tasks[t]))
            && forall t: nat, u: nat, r ::
                 t < u < c.ntasks && (r == ReleaseHolder || r == BarrierHolder || r == ExitHolder) ==>
                 !(Is(r, s.tasks[t]) && Is(r, s.tasks[u]))
  {
    RunInv(c, schedule);
    var s := Run(c, schedule);
    CountMost(ReleaseHolder, s.tasks);
    CountMost(BarrierHolder, s.tasks);
    CountMost(ExitHolder, s.tasks);
    forall t: nat, u: nat, r | t < u < c.ntasks && (r == ReleaseHolder || r == BarrierHolder || r == ExitHolder)
      ensures !(Is(r, s.tasks[t]) && Is(r, s.tasks[u]))
    {
      if Is(r, s.tasks[t]) && Is(r, s.tasks[u]) { OnlyOne(r, s.tasks, t, u); }
    }
  }

  /** Whoever holds a word gives it back with its next step, and never as 0. */
  lemma HolderReturnsWord(c: Config, schedule: seq<Actor>, t: nat)
    requires ValidConfig(c) && Legal(c, schedule) && c.ntasks + 1 < WORD && t < c.ntasks
    ensures var s, s' := Run(c, schedule), TaskStep(c, Run(c, schedule), t);
            && (Is(ReleaseHolder, s.tasks[t]) ==> s'.releaseWord != 0)
            && (Is(BarrierHolder, s.tasks[t]) ==> s'.barrierWord != 0)
            && (Is(ExitHolder, s.tasks[t]) ==> s'.exitWord != 0)
    ensures var s := Run(c, schedule); s.joiner == JoinWrite ==> JoinStep(s).exitWord != 0
  {
    hide Count, TasksInv, TaskStep;
    RunInv(c, schedule);
    var s := Run(c, schedule);
    StepKeepsInv(c, s, TaskActor(t));
    StepReturns(c, s, t);
    CountMost(Exited, s.tasks);
  }

  lemma StepReturns(c: Config, s: State, t: nat)
    requires Inv(c, s) && t < c.ntasks && Inv(c, TaskStep(c, s, t))
    ensures var s' := TaskStep(c, s, t);
            && (Is(ReleaseHolder, s.tasks[t]) ==> s'.releaseWord != 0)
            && (Is(BarrierHolder, s.tasks[t]) ==> s'.barrierWord != 0)
            && (Is(ExitHolder, s.tasks[t]) ==> s'.exitWord != 0)
  {
    hide Count, TasksInv, BarrierValue;
    var s' := TaskStep(c, s, t);
    CountPut(ReleaseHolder, s.tasks, t, s'.tasks[t]);
    CountPut(BarrierHolder, s.tasks, t, s'.tasks[t]);
    CountPut(ExitHolder, s.tasks, t, s'.tasks[t]);
  }

  /** Arrivals counted since the barrier word was last restored. */
  function ArrivedSinceReset(s: State): nat {
    if Count(Restored, s.tasks) > 0 then 0 else Count(Arrived(s.finished), s.tasks)
  }

  /** The barrier word, stored or held by a signalling task, and the arrivals add up to ntasks + 1. */
  lemma CounterConservation(c: Config, schedule: seq<Actor>)
    requires ValidConfig(c) && Legal(c, schedule) && c.ntasks + 1 < WORD
    ensures var s := Run(c, schedule);
            && (s.barrierWord != 0 ==> s.barrierWord + ArrivedSinceReset(s) == c.ntasks + 1)
            && (forall t: nat :: t < c.ntasks && s.tasks[t].pc.SignalWrite? ==>
                  s.tasks[t].value + ArrivedSinceReset(s) == c.ntasks + 1 && s.tasks[t].value >= 2)
  {
    RunInv(c, schedule);
    var s := Run(c, schedule);
    forall t: nat | t < c.ntasks && s.tasks[t].pc.SignalWrite?
      ensures s.tasks[t].value + ArrivedSinceReset(s) == c.ntasks + 1 && s.tasks[t].value >= 2
    {
      NoLeaderYet(c, s, t);
      SignalledValue(c, s, t);
    }
  }

  lemma HasRole(r: Role, tasks: seq<Task>)
    ensures Count(r, tasks) > 0 <==> exists t: nat :: t < |tasks| && Is(r, tasks[t])
    ensures Count(r, tasks) == |tasks| <==> forall t: nat :: t < |tasks| ==> Is(r, tasks[t])
  {
    hide Count, Is;
    CountMost(r, tasks);
    if t :| 0 <= t < |tasks| && Is(r, tasks[t]) {
      assert exists u: nat :: u < |tasks| && Is(r, tasks[u]);
    }
  }

  lemma LeaderWhenAllArrived(c: Config, s: State)
    requires Inv(c, s)
    ensures |s.tasks| == c.ntasks
    ensures (exists t: nat :: t < |s.tasks| && Is(Leader, s.tasks[t])) <==>
            |s.tasks| > 0 && forall t: nat :: t < |s.tasks| ==> Is(Arrived(s.finished), s.tasks[t])
  {
    hide Count, Is, Inv;
    LeaderCounted(c, s);
    HasRole(Leader, s.tasks);
    HasRole(Arrived(s.finished), s.tasks);
  }

  /** A round has a leader exactly while all tasks have arrived in it, and never two. */
  lemma OneLeader(c: Config, schedule: seq<Actor>)
    requires ValidConfig(c) && Legal(c, schedule) && c.ntasks + 1 < WORD
    ensures var s := Run(c, schedule);
            && ((exists t: nat :: t < |s.tasks| && Is(Leader, s.tasks[t])) <==>
                |s.tasks| > 0 && forall t: nat :: t < |s.tasks| ==> Is(Arrived(s.finished), s.tasks[t]))
            && forall t: nat, u: nat :: t < u < |s.tasks| ==> !(Is(Leader, s.tasks[t]) && Is(Leader, s.tasks[u]))
  {
    hide Count, TasksInv, Run, Is, Inv;
    RunInv(c, schedule);
    var s := Run(c, schedule);
    LeaderCounted(c, s);
    LeaderWhenAllArrived(c, s);
    forall t: nat, u: nat | t < u < |s.tasks| ensures !(Is(Leader, s.tasks[t]) && Is(Leader, s.tasks[u])) {
      if Is(Leader, s.tasks[t]) && Is(Leader, s.tasks[u]) { OnlyOne(Leader, s.tasks, t, u); }
    }
  }

  /** When a round is about to be released the counter is back at its initial value and nobody can
      count it down: every other task still polls. */
  lemma RestoredBeforeRelease(c: Config, schedule: seq<Actor>, t: nat)
    requires ValidConfig(c) && Legal(c, schedule) && c.ntasks + 1 < WORD && t < c.ntasks
    requires Run(c, schedule).tasks[t].pc.ReleaseWrite?
    ensures var s := Run(c, schedule);
            s.barrierWord == c.ntasks + 1 && forall u: nat :: u < c.ntasks && u != t ==> s.tasks[u].pc.WaitRead?
  {
    RunInv(c, schedule);
    var s := Run(c, schedule);
    AllAtPoll(c, s, t);
    CountMost(BarrierHolder, s.tasks);
    CountAtLeast(Restored, s.tasks, t);
  }

  /** The exit word, stored or held by an exiting task or by the polling joiner, and the tasks gone add
      up to ntasks + 1; the joiner returns only when all tasks are gone. */
  lemma JoinSafety(c: Config, schedule: seq<Actor>)
    requires ValidConfig(c) && Legal(c, schedule) && c.ntasks + 1 < WORD
    ensures var s := Run(c, schedule);
            && (s.exitWord != 0 ==> s.exitWord + Count(Exited, s.tasks) == c.ntasks + 1)
            && (s.joiner == JoinWrite ==> s.joinValue + Count(Exited, s.tasks) == c.ntasks + 1)
            && (forall t: nat :: t < c.ntasks && s.tasks[t].pc.ExitWrite? ==>
                  s.tasks[t].value + Count(Exited, s.tasks) == c.ntasks + 1 && s.tasks[t].value >= 2)
            && (s.joiner == Joined ==> forall t: nat :: t < c.ntasks ==> s.tasks[t].pc.Gone?)
  {
    RunInv(c, schedule);
    var s := Run(c, schedule);
    CountMost(Exited, s.tasks);
    forall t: nat | t < c.ntasks && s.tasks[t].pc.ExitWrite?
      ensures s.tasks[t].value + Count(Exited, s.tasks) == c.ntasks + 1 && s.tasks[t].value >= 2
    {
      ExitedValue(c, s, t);
    }
    if s.joiner == Joined {
      forall t: nat | t < c.ntasks ensures s.tasks[t].pc.Gone? {
        assert Is(Exited, s.tasks[t]);
      }
    }
  }
}
