/** How many steps a task group still needs: every step either lowers this number by exactly one or
    leaves it alone, as a read of 0 and a poll that comes too early do. */
module GroupDistance {
  import opened Workgroup
  import opened Protocol

  const ROUND: nat := 7   // steps of a barrier call that counts as neither early poll nor leader's work
  const LEADING: nat := 2 // steps a round costs its leader beyond that
  const EXIT: nat := 3

  /** The task polls for a release that has not come. */
  predicate Refused(s: State, t: nat)
    requires t < |s.tasks|
  {
    Waiting(s.tasks[t]) && s.tasks[t].done == s.finished
  }

  /** Position inside a barrier call or on the way out. */
  function Position(k: Task, finished: nat): nat {
    match k.pc
    case Idle => 0
    case PeekRead => 1
    case PeekWrite => 2
    case SignalRead => 3
    case SignalWrite => 4
    case WaitRead => 5
    case WaitWrite => if k.done < finished then 6 else 5
    case ResetRead => 5
    case ResetWrite => 6
    case ReleaseRead => 7
    case ReleaseWrite => 8
    case ExitRead => 1
    case ExitWrite => 2
    case Gone => 3
  }

  function TaskRemaining(k: Task, calls: nat, finished: nat): int {
    ROUND * (calls - k.done) + EXIT - Position(k, finished)
  }

  function TasksRemaining(tasks: seq<Task>, calls: seq<nat>, finished: nat): int
    requires |tasks| == |calls|
  {
    if |tasks| == 0 then 0
    else
      var last := |tasks| - 1;
      TasksRemaining(tasks[..last], calls[..last], finished) + TaskRemaining(tasks[last], calls[last], finished)
  }

  function JoinRemaining(s: State): nat {
    match s.joiner
    case JoinRead => 2
    case JoinWrite => if s.joinValue == READ then 1 else 2
    case Joined => 0
  }

  /** The number of rounds of a group whose tasks call the barrier equally often. */
  function Rounds(c: Config): nat {
    if |c.calls| == 0 then 0 else c.calls[0]
  }

  function Remaining(c: Config, s: State): int
    requires |s.tasks| == |c.calls|
  {
    TasksRemaining(s.tasks, c.calls, s.finished) + LEADING * (Rounds(c) - s.finished) + JoinRemaining(s)
  }

  /** The actor has something to do: it holds a word, or the word it reads is free and tells it what it
      waits for. */
  predicate Helpful(s: State, a: Actor)
    requires a.Main? || a.t < |s.tasks|
  {
    match a
    case Main => s.joiner == JoinWrite || (s.joiner == JoinRead && s.exitWord == READ)
    case TaskActor(t) =>
      match s.tasks[t].pc
      case Idle | PeekWrite | SignalWrite | WaitWrite | ResetWrite | ReleaseWrite | ExitWrite => true
      case PeekRead | ReleaseRead => s.releaseWord != 0
      case SignalRead | ResetRead => s.barrierWord != 0
      case WaitRead => s.releaseWord != 0 && s.tasks[t].done < s.finished
      case ExitRead => s.exitWord != 0
      case Gone => false
  }

  /** It does more than give back a word it polled too early. */
  predicate Lowers(s: State, a: Actor)
    requires a.Main? || a.t < |s.tasks|
  {
    Helpful(s, a) &&
    match a
    case Main => !(s.joiner == JoinWrite && s.joinValue != READ)
    case TaskActor(t) => !Refused(s, t)
  }

  lemma {:induction false} RemainingPut(tasks: seq<Task>, calls: seq<nat>, finished: nat, t: nat, k: Task)
    requires |tasks| == |calls| && t < |tasks|
    ensures TasksRemaining(tasks[t := k], calls, finished) == TasksRemaining(tasks, calls, finished)
            - TaskRemaining(tasks[t], calls[t], finished) + TaskRemaining(k, calls[t], finished)
  {
    var last := |tasks| - 1;
    if t < last {
      assert tasks[t := k][..last] == tasks[..last][t := k];
      RemainingPut(tasks[..last], calls[..last], finished, t, k);
    } else {
      assert tasks[t := k][..last] == tasks[..last];
    }
  }

  /** A release moves nobody who does not hold the release word. */
  lemma {:induction false} RemainingReleased(tasks: seq<Task>, calls: seq<nat>, finished: nat)
    requires |tasks| == |calls| && forall k :: k in tasks ==> !k.pc.WaitWrite?
    ensures TasksRemaining(tasks, calls, finished + 1) == TasksRemaining(tasks, calls, finished)
  {
    if |tasks| > 0 {
      var last := |tasks| - 1;
      assert tasks[last] in tasks;
      RemainingReleased(tasks[..last], calls[..last], finished);
    }
  }

  /** What a step of task `t` changes. */
  lemma StepPuts(c: Config, s: State, t: nat)
    requires ValidConfig(c) && |s.tasks| == c.ntasks && t < c.ntasks
    ensures var s' := TaskStep(c, s, t);
            && s'.tasks == s.tasks[t := s'.tasks[t]]
            && s'.finished == s.finished + (if s.tasks[t].pc.ReleaseWrite? then 1 else 0)
            && s'.joiner == s.joiner && s'.joinValue == s.joinValue
  {
    hide Wrap;
  }

  /** The step itself, for the task that takes it. */
  lemma OwnStep(c: Config, s: State, t: nat)
    requires Inv(c, s) && t < c.ntasks
    ensures var s' := TaskStep(c, s, t);
            TaskRemaining(s'.tasks[t], c.calls[t], s'.finished) ==
            TaskRemaining(s.tasks[t], c.calls[t], s'.finished)
            - (if Lowers(s, TaskActor(t)) then 1 else 0)
            + (if s.tasks[t].pc.ReleaseWrite? then LEADING else 0)
  {
    hide Count, WordInv, TasksInv, Wrap, Parity;
    Focus(c, s, t, s.tasks[t]);
    ParityAlternates(s.finished);
  }

  lemma TaskStepExact(c: Config, s: State, t: nat)
    requires Inv(c, s) && t < c.ntasks
    ensures Remaining(c, TaskStep(c, s, t)) == Remaining(c, s) - if Lowers(s, TaskActor(t)) then 1 else 0
  {
    hide TaskStep, Count, WordInv, TasksInv, Position, Lowers;
    StepPuts(c, s, t);
    OwnStep(c, s, t);
    var s' := TaskStep(c, s, t);
    if s.tasks[t].pc.ReleaseWrite? {
      AllAtPoll(c, s, t);
      RemainingReleased(s.tasks, c.calls, s.finished);
    }
    RemainingPut(s.tasks, c.calls, s'.finished, t, s'.tasks[t]);
  }

  lemma MainStepExact(c: Config, s: State)
    requires Inv(c, s)
    ensures Remaining(c, JoinStep(s)) == Remaining(c, s) - if Lowers(s, Main) then 1 else 0
  {
    hide Count, TasksInv;
  }

  /** Every step lowers the distance by one if it is a lowering step, and else leaves it alone. */
  lemma StepExact(c: Config, s: State, a: Actor)
    requires Inv(c, s) && (a.Main? || a.t < c.ntasks)
    ensures Remaining(c, Step(c, s, a)) == Remaining(c, s) - if Lowers(s, a) then 1 else 0
  {
    match a
    case Main => MainStepExact(c, s);
    case TaskActor(t) => TaskStepExact(c, s, t);
  }

  /** All tasks call the barrier equally often. */
  ghost predicate Uniform(c: Config)
    requires ValidConfig(c)
  {
    forall t: nat, u: nat :: t < u < c.ntasks ==> c.calls[t] == c.calls[u]
  }

  ghost predicate Complete(s: State) {
    s.joiner == Joined && forall k :: k in s.tasks ==> k.pc.Gone?
  }

  lemma {:induction false} TasksRemainingSign(tasks: seq<Task>, calls: seq<nat>, finished: nat)
    requires |tasks| == |calls|
    requires forall t :: 0 <= t < |tasks| ==> tasks[t].done <= calls[t]
    requires forall t :: 0 <= t < |tasks| ==> InBarrier(tasks[t]) ==> tasks[t].done < calls[t]
    requires forall t :: 0 <= t < |tasks| ==> tasks[t].pc.Gone? ==> tasks[t].done == calls[t]
    ensures TasksRemaining(tasks, calls, finished) >= 0
    ensures TasksRemaining(tasks, calls, finished) == 0 <==> forall k :: k in tasks ==> k.pc.Gone?
  {
    if |tasks| > 0 {
      var last := |tasks| - 1;
      TasksRemainingSign(tasks[..last], calls[..last], finished);
      assert tasks == tasks[..last] + [tasks[last]];
      assert TaskRemaining(tasks[last], calls[last], finished) >= 0;
      assert TaskRemaining(tasks[last], calls[last], finished) == 0 <==> tasks[last].pc.Gone?;
    }
  }

  lemma RoundsLeft(c: Config, s: State)
    requires Inv(c, s) && Uniform(c)
    ensures forall t: nat :: t < c.ntasks ==> c.calls[t] == Rounds(c) && s.finished <= Rounds(c)
    ensures forall t: nat :: t < c.ntasks && s.tasks[t].pc.Gone? ==> s.finished == Rounds(c)
    ensures c.ntasks == 0 ==> s.finished == Rounds(c)
  {
    hide Count;
    forall t: nat | t < c.ntasks ensures c.calls[t] == Rounds(c) && s.finished <= Rounds(c) {
      assert t == 0 || c.calls[0] == c.calls[t];
    }
  }

  /** The distance is never negative, and 0 exactly at completion. */
  lemma RemainingSign(c: Config, s: State)
    requires Inv(c, s) && Uniform(c)
    ensures Remaining(c, s) >= 0
    ensures Remaining(c, s) == 0 <==> Complete(s)
  {
    hide Count, WordInv;
    RoundsLeft(c, s);
    TasksRemainingSign(s.tasks, c.calls, s.finished);
    if c.ntasks > 0 {
      assert s.tasks[0] in s.tasks;
    }
  }

  // ----- counting the steps of a run

  /** Number of lowering steps of a schedule. */
  function Lowered(c: Config, schedule: seq<Actor>): nat
    requires ValidConfig(c) && Legal(c, schedule)
  {
    if |schedule| == 0 then 0
    else
      var before, a := schedule[..|schedule| - 1], schedule[|schedule| - 1];
      Lowered(c, before) + if Lowers(Run(c, before), a) then 1 else 0
  }

  lemma {:induction false} RemainingAfter(c: Config, schedule: seq<Actor>)
    requires ValidConfig(c) && Legal(c, schedule) && c.ntasks + 1 < WORD
    ensures Remaining(c, Run(c, schedule)) == Remaining(c, Spawned(c)) - Lowered(c, schedule)
  {
    if |schedule| > 0 {
      var before, a := schedule[..|schedule| - 1], schedule[|schedule| - 1];
      RemainingAfter(c, before);
      RunInv(c, before);
      StepExact(c, Run(c, before), a);
    }
  }

  lemma {:induction false} RemainingAtStart(tasks: seq<Task>, calls: seq<nat>, rounds: nat)
    requires |tasks| == |calls| && forall k :: k in tasks ==> k == Task(Idle, 0, 0, 0)
    requires forall k :: k in calls ==> k == rounds
    ensures TasksRemaining(tasks, calls, 0) == |tasks| * (ROUND * rounds + EXIT)
  {
    if |tasks| > 0 {
      var last := |tasks| - 1;
      forall k | k in tasks[..last] ensures k in tasks {}
      forall k | k in calls[..last] ensures k in calls {}
      RemainingAtStart(tasks[..last], calls[..last], rounds);
      assert tasks[last] in tasks && calls[last] in calls;
      assert |tasks| * (ROUND * rounds + EXIT) == last * (ROUND * rounds + EXIT) + (ROUND * rounds + EXIT);
    }
  }

  /** A group of n tasks with K barrier calls each is complete exactly after n(7K + 3) + 2K + 2 lowering
      steps, on every schedule. */
  lemma CompleteExactly(c: Config, schedule: seq<Actor>)
    requires ValidConfig(c) && Legal(c, schedule) && c.ntasks + 1 < WORD && Uniform(c)
    ensures var needed := c.ntasks * (7 * Rounds(c) + 3) + 2 * Rounds(c) + 2;
            && Lowered(c, schedule) <= needed
            && (Complete(Run(c, schedule)) <==> Lowered(c, schedule) == needed)
  {
    hide Remaining, Complete, Lowered, Run;
    var s := Run(c, schedule);
    RunInv(c, schedule);
    RemainingSign(c, s);
    RemainingAfter(c, schedule);
    StartRemaining(c);
  }

  lemma StartRemaining(c: Config)
    requires ValidConfig(c) && Uniform(c)
    ensures Remaining(c, Spawned(c)) == c.ntasks * (ROUND * Rounds(c) + EXIT) + LEADING * Rounds(c) + 2
  {
    var s := Spawned(c);
    forall k | k in c.calls ensures k == Rounds(c) {
      var t: nat :| t < c.ntasks && c.calls[t] == k;
      assert t == 0 || c.calls[0] == c.calls[t];
    }
    RemainingAtStart(s.tasks, c.calls, Rounds(c));
  }
}
