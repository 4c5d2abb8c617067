/** The invariant of the task group and its preservation by every step. */
module Protocol {
  import opened Workgroup

  /** Roles that are counted. */
  datatype Role =
    | ReleaseHolder | BarrierHolder | ExitHolder  // holds the word: read it and has not written back
    | Arrived(round: nat)                         // counted down in the round after `round` others
    | Leader                                      // last arriver of a round not yet released
    | Restored                                    // leader that has already reset the barrier word
    | Exited

  predicate Is(r: Role, k: Task) {
    match r
    case ReleaseHolder => k.pc.PeekWrite? || k.pc.WaitWrite? || k.pc.ReleaseWrite?
    case BarrierHolder => k.pc.SignalWrite? || k.pc.ResetWrite?
    case ExitHolder => k.pc.ExitWrite?
    case Arrived(round) => k.done == round && (Waiting(k) || Leading(k))
    case Leader => Leading(k)
    case Restored => k.pc.ReleaseRead? || k.pc.ReleaseWrite?
    case Exited => k.pc.Gone?
  }

  predicate Waiting(k: Task) {
    k.pc.WaitRead? || k.pc.WaitWrite?
  }

  predicate Leading(k: Task) {
    k.pc.ResetRead? || k.pc.ResetWrite? || k.pc.ReleaseRead? || k.pc.ReleaseWrite?
  }

  function Count(r: Role, tasks: seq<Task>): nat {
    if |tasks| == 0 then 0
    else Count(r, tasks[..|tasks| - 1]) + if Is(r, tasks[|tasks| - 1]) then 1 else 0
  }

  lemma {:induction false} CountPut(r: Role, tasks: seq<Task>, t: nat, k: Task)
    requires t < |tasks|
    ensures Count(r, tasks[t := k]) ==
            Count(r, tasks) - (if Is(r, tasks[t]) then 1 else 0) + (if Is(r, k) then 1 else 0)
  {
    var last := |tasks| - 1;
    if t < last {
      assert tasks[t := k][..last] == tasks[..last][t := k];
      CountPut(r, tasks[..last], t, k);
    } else {
      assert tasks[t := k][..last] == tasks[..last];
    }
  }

  lemma CountsPut(tasks: seq<Task>, t: nat, k: Task)
    requires t < |tasks|
    ensures forall r :: Count(r, tasks[t := k]) ==
              Count(r, tasks) - (if Is(r, tasks[t]) then 1 else 0) + (if Is(r, k) then 1 else 0)
  {
    forall r {
      CountPut(r, tasks, t, k);
    }
  }

  lemma {:induction false} CountAtLeast(r: Role, tasks: seq<Task>, t: nat)
    requires t < |tasks| && Is(r, tasks[t])
    ensures Count(r, tasks) >= 1
  {
    if t < |tasks| - 1 {
      CountAtLeast(r, tasks[..|tasks| - 1], t);
    }
  }

  lemma {:induction false} OnlyOne(r: Role, tasks: seq<Task>, t: nat, u: nat)
    requires t < u < |tasks| && Is(r, tasks[t]) && Is(r, tasks[u])
    ensures Count(r, tasks) >= 2
  {
    if u < |tasks| - 1 {
      OnlyOne(r, tasks[..|tasks| - 1], t, u);
    } else {
      CountAtLeast(r, tasks[..|tasks| - 1], t);
    }
  }

  lemma {:induction false} CountMost(r: Role, tasks: seq<Task>)
    ensures Count(r, tasks) <= |tasks|
    ensures Count(r, tasks) == |tasks| <==> forall t :: 0 <= t < |tasks| ==> Is(r, tasks[t])
    ensures Count(r, tasks) == 0 <==> forall t :: 0 <= t < |tasks| ==> !Is(r, tasks[t])
  {
    if |tasks| > 0 {
      CountMost(r, tasks[..|tasks| - 1]);
    }
  }

  /** The value of the release word after `rounds` rounds. */
  function Parity(rounds: nat): nat {
    if rounds % 2 == 0 then 2 else 1
  }

  /** What holds of one task, given how often it will call, the rounds finished, the arrivals in the
      current round and the tasks gone. */
  ghost predicate TaskInv(n: nat, k: Task, calls: nat, finished: nat, arrivals: nat, gone: nat) {
    && (k.done == finished || (k.done + 1 == finished && Waiting(k)))
    && k.done <= calls
    && (InBarrier(k) ==> k.done < calls)
    && (k.pc.ExitRead? || k.pc.ExitWrite? || k.pc.Gone? ==> k.done == calls)
    && (InBarrier(k) && !(k.pc.PeekRead? || k.pc.PeekWrite?) ==> k.go == Parity(k.done + 1))
    && (k.pc.PeekWrite? || k.pc.WaitWrite? ==> k.value == Parity(finished))
    && (k.pc.SignalWrite? ==> k.value + arrivals == n + 1)
    && (k.pc.ExitWrite? ==> k.value + gone == n + 1)
    && (Is(Leader, k) ==> arrivals == n)
  }

  /** What the barrier word, stored or held by a signalling task, is worth. */
  function BarrierValue(n: nat, s: State): int {
    n + 1 - if Count(Restored, s.tasks) > 0 then 0 else Count(Arrived(s.finished), s.tasks)
  }

  ghost predicate WordInv(n: nat, s: State) {
    && Count(ReleaseHolder, s.tasks) == (if s.releaseWord == 0 then 1 else 0)
    && (s.releaseWord != 0 ==> s.releaseWord == Parity(s.finished))
    && Count(BarrierHolder, s.tasks) == (if s.barrierWord == 0 then 1 else 0)
    && (s.barrierWord != 0 ==> s.barrierWord == BarrierValue(n, s))
    && Count(Leader, s.tasks) == (if n > 0 && Count(Arrived(s.finished), s.tasks) == n then 1 else 0)
    && Count(ExitHolder, s.tasks) + (if s.joiner == JoinWrite then 1 else 0) == (if s.exitWord == 0 then 1 else 0)
    && (s.exitWord != 0 ==> s.exitWord + Count(Exited, s.tasks) == n + 1)
    && (s.joiner == JoinWrite ==> s.joinValue + Count(Exited, s.tasks) == n + 1)
    && (s.joiner == Joined ==> Count(Exited, s.tasks) == n)
    && (n == 0 ==> s.finished == 0)
  }

  ghost predicate TasksInv(c: Config, s: State)
    requires ValidConfig(c) && |s.tasks| == c.ntasks
  {
    forall t: nat :: t < c.ntasks ==>
      TaskInv(c.ntasks, s.tasks[t], c.calls[t], s.finished,
              Count(Arrived(s.finished), s.tasks), Count(Exited, s.tasks))
  }

  /** The invariant of every run, for groups whose initial words do not wrap to 0. */
  ghost predicate Inv(c: Config, s: State) {
    && ValidConfig(c) && c.ntasks + 1 < WORD
    && |s.tasks| == c.ntasks
    && TasksInv(c, s)
    && WordInv(c.ntasks, s)
  }

  lemma SpawnedInv(c: Config)
    requires ValidConfig(c) && c.ntasks + 1 < WORD
    ensures Inv(c, Spawned(c))
  {
    var s := Spawned(c);
    forall r: Role | !r.Arrived? || r == Arrived(0) ensures Count(r, s.tasks) == 0 {
      CountMost(r, s.tasks);
    }
  }

  /** No other task holds a word that `t` holds. */
  lemma SoleHolder(r: Role, tasks: seq<Task>, t: nat)
    requires t < |tasks| && Count(r, tasks) <= 1 && Is(r, tasks[t])
    ensures forall u: nat :: u < |tasks| && u != t ==> !Is(r, tasks[u])
  {
    forall u: nat | u < |tasks| && u != t ensures !Is(r, tasks[u]) {
      if Is(r, tasks[u]) {
        OnlyOne(r, tasks, if t < u then t else u, if t < u then u else t);
      }
    }
  }

  /** Replacing task `t` keeps the others' part of the invariant when they do not depend on what
      changed: the arrivals if somebody else is signalling, the exits if somebody else is exiting. */
  lemma OthersKept(c: Config, s: State, s': State, t: nat)
    requires ValidConfig(c) && |s.tasks| == c.ntasks && t < c.ntasks && TasksInv(c, s)
    requires |s'.tasks| == c.ntasks && s'.tasks == s.tasks[t := s'.tasks[t]] && s'.finished == s.finished
    requires var a, a' := Count(Arrived(s.finished), s.tasks), Count(Arrived(s.finished), s'.tasks);
             a == a' || forall u: nat :: u < c.ntasks && u != t ==> !s.tasks[u].pc.SignalWrite? && !Is(Leader, s.tasks[u])
    requires var g, g' := Count(Exited, s.tasks), Count(Exited, s'.tasks);
             g == g' || forall u: nat :: u < c.ntasks && u != t ==> !s.tasks[u].pc.ExitWrite?
    requires TaskInv(c.ntasks, s'.tasks[t], c.calls[t], s.finished,
                     Count(Arrived(s.finished), s'.tasks), Count(Exited, s'.tasks))
    ensures TasksInv(c, s')
  {
    hide Count;
    forall u: nat | u < c.ntasks
      ensures TaskInv(c.ntasks, s'.tasks[u], c.calls[u], s'.finished,
                      Count(Arrived(s'.finished), s'.tasks), Count(Exited, s'.tasks))
    {
      if u != t {
        assert s'.tasks[u] == s.tasks[u];
        assert TaskInv(c.ntasks, s.tasks[u], c.calls[u], s.finished,
                       Count(Arrived(s.finished), s.tasks), Count(Exited, s.tasks));
      }
    }
  }

  lemma LeaderCounted(c: Config, s: State)
    requires Inv(c, s)
    ensures |s.tasks| == c.ntasks
    ensures Count(Leader, s.tasks) == if c.ntasks > 0 && Count(Arrived(s.finished), s.tasks) == c.ntasks then 1 else 0
  {
    hide Count, TasksInv;
  }

  /** The invariant of task `t`, and how replacing it changes every count. */
  lemma Focus(c: Config, s: State, t: nat, k: Task)
    requires Inv(c, s) && t < c.ntasks
    ensures TaskInv(c.ntasks, s.tasks[t], c.calls[t], s.finished,
                    Count(Arrived(s.finished), s.tasks), Count(Exited, s.tasks))
    ensures forall r :: Count(r, s.tasks[t := k]) ==
              Count(r, s.tasks) - (if Is(r, s.tasks[t]) then 1 else 0) + (if Is(r, k) then 1 else 0)
    ensures forall r :: Is(r, s.tasks[t]) ==> Count(r, s.tasks) >= 1
    ensures forall r :: !Is(r, s.tasks[t]) ==> Count(r, s.tasks) < c.ntasks
    ensures forall r :: Count(r, s.tasks) <= c.ntasks
  {
    CountsPut(s.tasks, t, k);
    forall r {
      CountMost(r, s.tasks);
    }
  }

  lemma PeekStep(c: Config, s: State, t: nat)
    requires Inv(c, s) && t < c.ntasks && (s.tasks[t].pc.Idle? || s.tasks[t].pc.PeekRead? || s.tasks[t].pc.PeekWrite?)
    ensures Inv(c, TaskStep(c, s, t))
  {
    hide Count, TasksInv;
    var s' := TaskStep(c, s, t);
    if s' != s {
      Focus(c, s, t, s'.tasks[t]);
      OthersKept(c, s, s', t);
    }
  }

  lemma NoOtherHolder(c: Config, s: State, t: nat, r: Role)
    requires Inv(c, s) && t < c.ntasks && Is(r, s.tasks[t])
    requires r.ReleaseHolder? || r.BarrierHolder? || r.ExitHolder? || r.Leader?
    ensures forall u: nat :: u < c.ntasks && u != t ==> !Is(r, s.tasks[u])
  {
    SoleHolder(r, s.tasks, t);
  }

  /** Before everybody has arrived there is no leader. */
  lemma NoLeaderYet(c: Config, s: State, t: nat)
    requires Inv(c, s) && t < c.ntasks && !Is(Arrived(s.finished), s.tasks[t])
    ensures forall u: nat :: u < c.ntasks ==> !Is(Leader, s.tasks[u])
    ensures Count(Leader, s.tasks) == Count(Restored, s.tasks) == 0
  {
    CountMost(Arrived(s.finished), s.tasks);
    CountMost(Leader, s.tasks);
    CountMost(Restored, s.tasks);
  }

  lemma SignalStep(c: Config, s: State, t: nat)
    requires Inv(c, s) && t < c.ntasks && (s.tasks[t].pc.SignalRead? || s.tasks[t].pc.SignalWrite?)
    ensures Inv(c, TaskStep(c, s, t))
  {
    hide Count, TasksInv;
    var s' := TaskStep(c, s, t);
    if s' != s {
      Focus(c, s, t, s'.tasks[t]);
      NoLeaderYet(c, s, t);
      if s.tasks[t].pc.SignalWrite? {
        NoOtherHolder(c, s, t, BarrierHolder);
        SignalledValue(c, s, t);
      }
      OthersKept(c, s, s', t);
    }
  }

  /** A signalling task writes back what is left of the count, which is never 0. */
  lemma SignalledValue(c: Config, s: State, t: nat)
    requires Inv(c, s) && t < c.ntasks && s.tasks[t].pc.SignalWrite?
    ensures 1 <= s.tasks[t].value - 1 < WORD
    ensures Wrap(s.tasks[t].value - 1) == c.ntasks - Count(Arrived(s.finished), s.tasks)
  {
    CountMost(Arrived(s.finished), s.tasks);
  }

  lemma ParityAlternates(rounds: nat)
    ensures Parity(rounds) != 0 && Parity(rounds) != Parity(rounds + 1)
  {
  }

  lemma WaitStep(c: Config, s: State, t: nat)
    requires Inv(c, s) && t < c.ntasks && (s.tasks[t].pc.WaitRead? || s.tasks[t].pc.WaitWrite?)
    ensures Inv(c, TaskStep(c, s, t))
  {
    hide Count, TasksInv, Parity, Wrap;
    ParityAlternates(s.finished);
    var s' := TaskStep(c, s, t);
    if s' != s {
      Focus(c, s, t, s'.tasks[t]);
      OthersKept(c, s, s', t);
    }
  }

  lemma ResetStep(c: Config, s: State, t: nat)
    requires Inv(c, s) && t < c.ntasks
    requires s.tasks[t].pc.ResetRead? || s.tasks[t].pc.ResetWrite? || s.tasks[t].pc.ReleaseRead?
    ensures Inv(c, TaskStep(c, s, t))
  {
    hide Count, TasksInv;
    var s' := TaskStep(c, s, t);
    if s' != s {
      Focus(c, s, t, s'.tasks[t]);
      RestoredIsLeader(s.tasks);
      OthersKept(c, s, s', t);
    }
  }

  lemma {:induction false} RestoredIsLeader(tasks: seq<Task>)
    ensures Count(Restored, tasks) <= Count(Leader, tasks)
  {
    if |tasks| > 0 {
      RestoredIsLeader(tasks[..|tasks| - 1]);
    }
  }

  /** When the leader releases the round, all others stand at the poll and none has called again. */
  lemma AllAtPoll(c: Config, s: State, t: nat)
    requires Inv(c, s) && t < c.ntasks && s.tasks[t].pc.ReleaseWrite?
    ensures forall u: nat :: u < c.ntasks && u != t ==>
              s.tasks[u].pc.WaitRead? && s.tasks[u].done == s.finished &&
              s.tasks[u].go == Parity(s.finished + 1) && s.tasks[u].done < c.calls[u]
    ensures s.tasks[t].done == s.finished && s.tasks[t].go == Parity(s.finished + 1) && s.tasks[t].done < c.calls[t]
  {
    CountMost(Arrived(s.finished), s.tasks);
    SoleHolder(ReleaseHolder, s.tasks, t);
    SoleHolder(Leader, s.tasks, t);
  }

  lemma ReleaseStep(c: Config, s: State, t: nat)
    requires Inv(c, s) && t < c.ntasks && s.tasks[t].pc.ReleaseWrite?
    ensures Inv(c, TaskStep(c, s, t))
  {
    hide Count, TasksInv, Inv;
    InvShape(c, s);
    var s' := TaskStep(c, s, t);
    AllAtPoll(c, s, t);
    Released(c, s, t);
    ReleasedTasks(c, s, t);
    ReleasedWords(c, s, t);
    InvParts(c, s');
  }

  lemma InvParts(c: Config, s: State)
    requires ValidConfig(c) && c.ntasks + 1 < WORD && |s.tasks| == c.ntasks && TasksInv(c, s) && WordInv(c.ntasks, s)
    ensures Inv(c, s)
  {
  }

  /** After a release the leader is between calls and the others still poll. */
  lemma AfterRelease(c: Config, s: State, t: nat)
    requires Inv(c, s) && t < c.ntasks && s.tasks[t].pc.ReleaseWrite?
    ensures ValidConfig(c) && c.ntasks + 1 < WORD && |s.tasks| == c.ntasks
    ensures var s' := TaskStep(c, s, t);
            && s'.finished == s.finished + 1
            && Count(BarrierHolder, s'.tasks) == Count(BarrierHolder, s.tasks)
            && forall u: nat :: u < c.ntasks ==>
                 s'.tasks[u].pc.Idle? || (s'.tasks[u].pc.WaitRead? && s'.tasks[u].done == s.finished)
  {
    hide Count, TasksInv, WordInv;
    AllAtPoll(c, s, t);
    CountPut(BarrierHolder, s.tasks, t, TaskStep(c, s, t).tasks[t]);
  }

  lemma BeforeRelease(c: Config, s: State, t: nat)
    requires Inv(c, s) && t < c.ntasks && s.tasks[t].pc.ReleaseWrite?
    ensures Count(ExitHolder, s.tasks) == Count(Exited, s.tasks) == 0
  {
    hide Count, TasksInv, WordInv;
    AllAtPoll(c, s, t);
    CountMost(ExitHolder, s.tasks);
    CountMost(Exited, s.tasks);
  }

  /** The counts after a release: nobody has arrived in the new round, nobody leads it. */
  lemma Released(c: Config, s: State, t: nat)
    requires Inv(c, s) && t < c.ntasks && s.tasks[t].pc.ReleaseWrite?
    ensures ValidConfig(c) && c.ntasks + 1 < WORD && |s.tasks| == c.ntasks
    ensures var s' := TaskStep(c, s, t);
            && s'.finished == s.finished + 1
            && Count(Arrived(s'.finished), s'.tasks) == Count(Leader, s'.tasks) == Count(Restored, s'.tasks) == 0
            && Count(ReleaseHolder, s'.tasks) == 0
            && Count(BarrierHolder, s'.tasks) == Count(BarrierHolder, s.tasks)
            && Count(ExitHolder, s'.tasks) == Count(ExitHolder, s.tasks) == 0
            && Count(Exited, s'.tasks) == Count(Exited, s.tasks) == 0
  {
    hide Count, TasksInv, WordInv, Inv, TaskStep;
    AfterRelease(c, s, t);
    BeforeRelease(c, s, t);
    var s' := TaskStep(c, s, t);
    CountMost(Arrived(s'.finished), s'.tasks);
    CountMost(Leader, s'.tasks);
    CountMost(Restored, s'.tasks);
    CountMost(ReleaseHolder, s'.tasks);
    CountMost(ExitHolder, s'.tasks);
    CountMost(Exited, s'.tasks);
  }

  lemma ReleasedTasks(c: Config, s: State, t: nat)
    requires Inv(c, s) && t < c.ntasks && s.tasks[t].pc.ReleaseWrite?
    ensures TasksInv(c, TaskStep(c, s, t))
  {
    hide Count;
    AllAtPoll(c, s, t);
    Released(c, s, t);
  }

  lemma ReleasedWords(c: Config, s: State, t: nat)
    requires Inv(c, s) && t < c.ntasks && s.tasks[t].pc.ReleaseWrite?
    ensures WordInv(c.ntasks, TaskStep(c, s, t))
  {
    hide Count, TasksInv;
    AllAtPoll(c, s, t);
    Released(c, s, t);
    Focus(c, s, t, s.tasks[t]);
    assert Is(Restored, s.tasks[t]);
  }

  lemma ExitStep(c: Config, s: State, t: nat)
    requires Inv(c, s) && t < c.ntasks && (s.tasks[t].pc.ExitRead? || s.tasks[t].pc.ExitWrite? || s.tasks[t].pc.Gone?)
    ensures Inv(c, TaskStep(c, s, t))
  {
    hide Count, TasksInv;
    var s' := TaskStep(c, s, t);
    if s' != s {
      Focus(c, s, t, s'.tasks[t]);
      if s.tasks[t].pc.ExitWrite? {
        NoOtherHolder(c, s, t, ExitHolder);
        ExitedValue(c, s, t);
      }
      OthersKept(c, s, s', t);
    }
  }

  /** An exiting task writes back what is left of the count, which is never 0. */
  lemma ExitedValue(c: Config, s: State, t: nat)
    requires Inv(c, s) && t < c.ntasks && s.tasks[t].pc.ExitWrite?
    ensures 1 <= s.tasks[t].value - 1 < WORD
    ensures Wrap(s.tasks[t].value - 1) == c.ntasks - Count(Exited, s.tasks)
  {
    CountMost(Exited, s.tasks);
  }

  lemma MainStep(c: Config, s: State)
    requires Inv(c, s)
    ensures Inv(c, JoinStep(s))
  {
    hide Count;
    var s' := JoinStep(s);
    assert s'.tasks == s.tasks && s'.finished == s.finished;
    CountMost(Exited, s.tasks);
  }

  lemma StepKeepsInv(c: Config, s: State, a: Actor)
    requires Inv(c, s) && (a.Main? || a.t < c.ntasks)
    ensures Inv(c, Step(c, s, a))
  {
    hide Inv;
    InvShape(c, s);
    match a
    case Main => MainStep(c, s);
    case TaskActor(t) =>
      match s.tasks[t].pc
      case Idle => PeekStep(c, s, t);
      case PeekRead => PeekStep(c, s, t);
      case PeekWrite => PeekStep(c, s, t);
      case SignalRead => SignalStep(c, s, t);
      case SignalWrite => SignalStep(c, s, t);
      case WaitRead => WaitStep(c, s, t);
      case WaitWrite => WaitStep(c, s, t);
      case ResetRead => ResetStep(c, s, t);
      case ResetWrite => ResetStep(c, s, t);
      case ReleaseRead => ResetStep(c, s, t);
      case ReleaseWrite => ReleaseStep(c, s, t);
      case ExitRead => ExitStep(c, s, t);
      case ExitWrite => ExitStep(c, s, t);
      case Gone => ExitStep(c, s, t);
  }

  lemma InvShape(c: Config, s: State)
    requires Inv(c, s)
    ensures ValidConfig(c) && |s.tasks| == c.ntasks && c.ntasks + 1 < WORD
  {
  }

  /** Every state of every schedule satisfies the invariant. */
  lemma {:induction false} RunInv(c: Config, schedule: seq<Actor>)
    requires ValidConfig(c) && Legal(c, schedule) && c.ntasks + 1 < WORD
    ensures Inv(c, Run(c, schedule))
  {
    if |schedule| == 0 {
      SpawnedInv(c);
    } else {
      RunInv(c, schedule[..|schedule| - 1]);
      StepKeepsInv(c, Run(c, schedule[..|schedule| - 1]), schedule[|schedule| - 1]);
    }
  }
}
