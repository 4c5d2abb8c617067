/** Which infinite schedules complete a group: exactly those that let every actor that is helpful
    again and again take a helpful step again and again. */
module GroupFairness {
  import opened Workgroup
  import opened Protocol
  import opened GroupDistance
  import opened GroupProgress

  /** An infinite schedule. */
  type Schedule = nat -> Actor

  ghost predicate LegalActor(c: Config, a: Actor) {
    a.Main? || a.t < c.ntasks
  }

  ghost predicate LegalForever(c: Config, f: Schedule) {
    forall i: nat :: LegalActor(c, f(i))
  }

  /** The state before step `k`. */
  function At(c: Config, f: Schedule, k: nat): (s: State)
    requires ValidConfig(c) && LegalForever(c, f)
    ensures |s.tasks| == c.ntasks
  {
    if k == 0 then Spawned(c) else
      assert LegalActor(c, f(k - 1));
      Step(c, At(c, f, k - 1), f(k - 1))
  }

  function Prefix(f: Schedule, k: nat): seq<Actor> {
    seq(k, i requires 0 <= i => f(i))
  }

  /** It is the state after the schedule's first `k` steps. */
  lemma {:induction false} AtIsRun(c: Config, f: Schedule, k: nat)
    requires ValidConfig(c) && LegalForever(c, f)
    ensures Legal(c, Prefix(f, k)) && At(c, f, k) == Run(c, Prefix(f, k))
  {
    forall a | a in Prefix(f, k) ensures LegalActor(c, a) {
      var i: nat :| i < k && f(i) == a;
    }
    if k > 0 {
      AtIsRun(c, f, k - 1);
      assert Prefix(f, k)[..k - 1] == Prefix(f, k - 1);
    }
  }

  /** Actor `a` can help at step `k`. */
  ghost predicate HelpfulAt(c: Config, f: Schedule, a: Actor, k: nat)
    requires ValidConfig(c) && LegalForever(c, f) && LegalActor(c, a)
  {
    Helpful(At(c, f, k), a)
  }

  /** Actor `a` takes a helpful step as step `k`. */
  ghost predicate HelpsAt(c: Config, f: Schedule, a: Actor, k: nat)
    requires ValidConfig(c) && LegalForever(c, f) && LegalActor(c, a)
  {
    HelpfulAt(c, f, a, k) && f(k) == a
  }

  ghost predicate HelpfulAgainAndAgain(c: Config, f: Schedule, a: Actor)
    requires ValidConfig(c) && LegalForever(c, f) && LegalActor(c, a)
  {
    forall k: nat :: HelpfulFrom(c, f, a, k)
  }

  ghost predicate HelpfulFrom(c: Config, f: Schedule, a: Actor, k: nat)
    requires ValidConfig(c) && LegalForever(c, f) && LegalActor(c, a)
  {
    exists m: nat :: k <= m && HelpfulAt(c, f, a, m)
  }

  ghost predicate HelpsFrom(c: Config, f: Schedule, a: Actor, k: nat)
    requires ValidConfig(c) && LegalForever(c, f) && LegalActor(c, a)
  {
    exists m: nat :: k <= m && HelpsAt(c, f, a, m)
  }

  ghost predicate HelpsAgainAndAgain(c: Config, f: Schedule, a: Actor)
    requires ValidConfig(c) && LegalForever(c, f) && LegalActor(c, a)
  {
    forall k: nat :: HelpsFrom(c, f, a, k)
  }

  ghost predicate Fair(c: Config, f: Schedule)
    requires ValidConfig(c) && LegalForever(c, f)
  {
    forall a :: LegalActor(c, a) && HelpfulAgainAndAgain(c, f, a) ==> HelpsAgainAndAgain(c, f, a)
  }

  ghost predicate Completes(c: Config, f: Schedule)
    requires ValidConfig(c) && LegalForever(c, f)
  {
    exists k: nat :: Complete(At(c, f, k))
  }

  /** No step from `k` on lowers the distance. */
  ghost predicate Idling(c: Config, f: Schedule, k: nat)
    requires ValidConfig(c) && LegalForever(c, f)
  {
    forall m: nat :: k <= m && LegalActor(c, f(m)) ==> !Lowers(At(c, f, m), f(m))
  }

  lemma {:induction false} AtInv(c: Config, f: Schedule, k: nat)
    requires ValidConfig(c) && LegalForever(c, f) && c.ntasks + 1 < WORD
    ensures Inv(c, At(c, f, k))
  {
    if k == 0 {
      SpawnedInv(c);
    } else {
      AtInv(c, f, k - 1);
      assert LegalActor(c, f(k - 1));
      StepKeepsInv(c, At(c, f, k - 1), f(k - 1));
    }
  }

  // ----- what stays when nothing is lowered

  predicate JoinPolling(s: State) {
    s.joiner == JoinRead || (s.joiner == JoinWrite && s.joinValue != READ)
  }

  /** The two states differ in polls that come too early, and in nothing else that matters. */
  ghost predicate SameCore(s: State, s': State) {
    && |s.tasks| == |s'.tasks| && s.finished == s'.finished
    && (forall t: nat :: t < |s.tasks| ==> s'.tasks[t] == s.tasks[t] || (Refused(s, t) && Refused(s', t)))
    && (s'.joiner == s.joiner || (JoinPolling(s) && JoinPolling(s')))
    && (s'.joiner == JoinWrite && s'.joinValue == READ <==> s.joiner == JoinWrite && s.joinValue == READ)
  }

  /** A step that lowers nothing only polls. */
  lemma IdleStep(c: Config, s: State, a: Actor)
    requires Inv(c, s) && LegalActor(c, a) && !Lowers(s, a)
    ensures SameCore(s, Step(c, s, a))
  {
    hide Count, TasksInv, Wrap;
    if a.TaskActor? {
      Focus(c, s, a.t, s.tasks[a.t]);
      ParityAlternates(s.finished);
    }
  }

  lemma SameCoreTrans(s: State, s': State, s'': State)
    requires SameCore(s, s') && SameCore(s', s'')
    ensures SameCore(s, s'')
  {
  }

  lemma {:induction false} CoreKept(c: Config, f: Schedule, k: nat, m: nat)
    requires ValidConfig(c) && LegalForever(c, f) && c.ntasks + 1 < WORD && Idling(c, f, k) && k <= m
    ensures SameCore(At(c, f, k), At(c, f, m))
    decreases m
  {
    hide SameCore, Inv, Lowers, Step;
    if k == m {
      SameCoreRefl(At(c, f, k));
    } else {
      CoreKept(c, f, k, m - 1);
      AtInv(c, f, m - 1);
      assert LegalActor(c, f(m - 1));
      IdleStep(c, At(c, f, m - 1), f(m - 1));
      SameCoreTrans(At(c, f, k), At(c, f, m - 1), At(c, f, m));
    }
  }

  lemma SameCoreRefl(s: State)
    ensures SameCore(s, s)
  {
  }

  /** The actor would lower the distance if the word it reads were free. */
  predicate Wants(s: State, a: Actor)
    requires a.Main? || a.t < |s.tasks|
  {
    match a
    case Main => s.joiner != Joined && forall k :: k in s.tasks ==> k.pc.Gone?
    case TaskActor(t) => !s.tasks[t].pc.Gone? && !Refused(s, t)
  }

  lemma WantsKept(c: Config, s: State, s': State, a: Actor)
    requires Inv(c, s) && LegalActor(c, a) && SameCore(s, s') && |s'.tasks| == c.ntasks && Wants(s, a)
    ensures Wants(s', a)
    ensures a.TaskActor? ==> s'.tasks[a.t] == s.tasks[a.t]
  {
    hide Inv;
    InvShape(c, s);
    if a.Main? {
      forall k | k in s'.tasks ensures k.pc.Gone? {
        var t: nat :| t < c.ntasks && s'.tasks[t] == k;
        assert s.tasks[t] in s.tasks;
      }
    }
  }

  lemma SameCoreSym(s: State, s': State)
    requires SameCore(s, s')
    ensures SameCore(s', s)
  {
  }

  /** Short of completion somebody wants to go on. */
  lemma SomebodyWants(c: Config, s: State) returns (a: Actor)
    requires Inv(c, s) && Uniform(c) && !Complete(s)
    ensures LegalActor(c, a) && Wants(s, a)
  {
    hide Count, TasksInv, WordInv;
    if t: nat :| t < c.ntasks && Wants(s, TaskActor(t)) {
      a := TaskActor(t);
    } else {
      a := Main;
      forall t: nat | t < c.ntasks ensures s.tasks[t].pc.Gone? || Refused(s, t) {
        assert !Wants(s, TaskActor(t));
      }
      AllGone(c, s);
    }
  }

  /** The actor wants to go on and needs no word for it. */
  predicate Ready(s: State, a: Actor)
    requires a.Main? || a.t < |s.tasks|
  {
    Wants(s, a) &&
    match a
    case Main => true
    case TaskActor(t) =>
      match s.tasks[t].pc
      case Idle | PeekWrite | SignalWrite | WaitWrite | ResetWrite | ReleaseWrite | ExitWrite => true
      case _ => false
  }

  /** When all tasks are gone the exit word is 1, or the joiner holds a 1. */
  lemma ReadyHelps(c: Config, s: State, a: Actor)
    requires Inv(c, s) && LegalActor(c, a) && Ready(s, a)
    ensures Helpful(s, a)
  {
    hide Count, TasksInv;
    if a.Main? {
      CountMost(Exited, s.tasks);
      CountMost(ExitHolder, s.tasks);
    }
  }

  lemma HelpfulLowers(c: Config, s: State, a: Actor)
    requires Inv(c, s) && LegalActor(c, a) && Helpful(s, a) && Wants(s, a)
    ensures Lowers(s, a)
  {
    hide Count, TasksInv;
    if a.Main? { CountMost(Exited, s.tasks); }
  }

  /** If somebody wants to go on throughout and can again and again, a fair schedule does not idle. */
  lemma WantingIsServed(c: Config, f: Schedule, k: nat, a: Actor)
    requires ValidConfig(c) && LegalForever(c, f) && c.ntasks + 1 < WORD && Fair(c, f) && LegalActor(c, a)
    requires Wants(At(c, f, k), a) && HelpfulAgainAndAgain(c, f, a)
    ensures !Idling(c, f, k)
  {
    hide Inv, Wants, SameCore, Lowers, Helpful;
    if Idling(c, f, k) {
      assert HelpsAgainAndAgain(c, f, a);
      assert HelpsFrom(c, f, a, k);
      var m: nat :| k <= m && HelpsAt(c, f, a, m);
      CoreKept(c, f, k, m);
      AtInv(c, f, k);
      AtInv(c, f, m);
      WantsKept(c, At(c, f, k), At(c, f, m), a);
      HelpfulLowers(c, At(c, f, m), a);
    }
  }

  /** Nobody is ready: what is held is held by polls. */
  ghost predicate NobodyReady(c: Config, s: State)
    requires |s.tasks| == c.ntasks
  {
    forall a :: LegalActor(c, a) ==> !Ready(s, a)
  }

  lemma NobodyReadyKept(c: Config, s: State, s': State)
    requires Inv(c, s) && Inv(c, s') && SameCore(s, s') && NobodyReady(c, s)
    ensures NobodyReady(c, s')
  {
    hide Inv, SameCore, Wants;
    InvShape(c, s);
    InvShape(c, s');
    SameCoreSym(s, s');
    forall a | LegalActor(c, a) ensures !Ready(s', a) {
      assert !Ready(s, a);
      if Ready(s', a) {
        WantsKept(c, s', s, a);
      }
    }
  }

  /** The barrier word is never held by a poll, the other two only by a refused one. */
  lemma OnlyPollsHold(c: Config, s: State)
    requires Inv(c, s) && NobodyReady(c, s)
    ensures s.barrierWord != 0
    ensures s.releaseWord == 0 ==> exists t: nat :: t < c.ntasks && s.tasks[t].pc.WaitWrite? && Refused(s, t)
    ensures s.exitWord == 0 ==> s.joiner == JoinWrite
  {
    hide Count, TasksInv;
    CountMost(BarrierHolder, s.tasks);
    CountMost(ReleaseHolder, s.tasks);
    CountMost(ExitHolder, s.tasks);
    forall t: nat | t < c.ntasks
      ensures !Is(BarrierHolder, s.tasks[t]) && !Is(ExitHolder, s.tasks[t])
      ensures Is(ReleaseHolder, s.tasks[t]) ==> s.tasks[t].pc.WaitWrite? && Refused(s, t)
    {
      assert LegalActor(c, TaskActor(t)) && !Ready(s, TaskActor(t));
    }
  }

  /** A task that holds the release word after a poll keeps it until it is scheduled, and then the
      word is free. */
  lemma PollerStep(c: Config, s: State, u: nat, a: Actor)
    requires Inv(c, s) && u < c.ntasks && s.tasks[u].pc.WaitWrite? && LegalActor(c, a)
    ensures a == TaskActor(u) ==> Step(c, s, a).releaseWord != 0
    ensures a != TaskActor(u) ==> Step(c, s, a).tasks[u] == s.tasks[u]
  {
    hide Count, WordInv, TasksInv, Wrap;
    Focus(c, s, u, s.tasks[u]);
    ParityAlternates(s.finished);
  }

  lemma {:induction false} PollerStays(c: Config, f: Schedule, m: nat, u: nat, n: nat)
    requires ValidConfig(c) && LegalForever(c, f) && c.ntasks + 1 < WORD && u < c.ntasks && m <= n
    requires At(c, f, m).tasks[u].pc.WaitWrite?
    requires forall i: nat :: m <= i <= n ==> At(c, f, i).releaseWord == 0
    ensures At(c, f, n).tasks[u] == At(c, f, m).tasks[u]
    decreases n
  {
    hide Inv, Step;
    if m < n {
      PollerStays(c, f, m, u, n - 1);
      AtInv(c, f, n - 1);
      assert LegalActor(c, f(n - 1));
      assert At(c, f, n).releaseWord == 0;
      PollerStep(c, At(c, f, n - 1), u, f(n - 1));
    }
  }

  ghost predicate ReleaseFreeFrom(c: Config, f: Schedule, m: nat)
    requires ValidConfig(c) && LegalForever(c, f)
  {
    exists n: nat :: m <= n && At(c, f, n).releaseWord != 0
  }

  /** A fair schedule makes the poller give the release word back. */
  lemma ReleaseFreeAgain(c: Config, f: Schedule, m: nat)
    requires ValidConfig(c) && LegalForever(c, f) && c.ntasks + 1 < WORD && Fair(c, f)
    requires NobodyReady(c, At(c, f, m))
    ensures ReleaseFreeFrom(c, f, m)
  {
    hide Inv, Step, NobodyReady;
    if !ReleaseFreeFrom(c, f, m) {
      assert forall n: nat :: m <= n ==> At(c, f, n).releaseWord == 0;
      AtInv(c, f, m);
      OnlyPollsHold(c, At(c, f, m));
      var u: nat :| u < c.ntasks && At(c, f, m).tasks[u].pc.WaitWrite? && Refused(At(c, f, m), u);
      var a := TaskActor(u);
      forall k: nat ensures HelpfulFrom(c, f, a, k) {
        var n := if k < m then m else k;
        PollerStays(c, f, m, u, n);
        assert HelpfulAt(c, f, a, n);
      }
      assert HelpsAgainAndAgain(c, f, a);
      assert HelpsFrom(c, f, a, m);
      var n: nat :| m <= n && HelpsAt(c, f, a, n);
      assert At(c, f, n + 1).releaseWord == 0;
      PollerStays(c, f, m, u, n);
      AtInv(c, f, n);
      PollerStep(c, At(c, f, n), u, f(n));
    }
  }

  ghost predicate ExitFreeFrom(c: Config, f: Schedule, m: nat)
    requires ValidConfig(c) && LegalForever(c, f)
  {
    exists n: nat :: m <= n && At(c, f, n).exitWord != 0
  }

  lemma JoinerStep(c: Config, s: State)
    requires Inv(c, s) && s.joiner == JoinWrite
    ensures JoinStep(s).exitWord != 0
  {
    hide Count, TasksInv;
    CountMost(Exited, s.tasks);
  }

  /** It makes the joiner give the exit word back. */
  lemma ExitFreeAgain(c: Config, f: Schedule, m: nat)
    requires ValidConfig(c) && LegalForever(c, f) && c.ntasks + 1 < WORD && Fair(c, f)
    requires forall n: nat :: m <= n ==> NobodyReady(c, At(c, f, n))
    ensures ExitFreeFrom(c, f, m)
  {
    hide Inv, NobodyReady;
    if !ExitFreeFrom(c, f, m) {
      forall n: nat | m <= n ensures At(c, f, n).joiner == JoinWrite {
        AtInv(c, f, n);
        OnlyPollsHold(c, At(c, f, n));
        assert At(c, f, n).exitWord == 0;
      }
      forall k: nat ensures HelpfulFrom(c, f, Main, k) {
        assert HelpfulAt(c, f, Main, if k < m then m else k);
      }
      assert HelpsAgainAndAgain(c, f, Main);
      assert HelpsFrom(c, f, Main, m);
      var n: nat :| m <= n && HelpsAt(c, f, Main, n);
      assert At(c, f, n + 1).exitWord == 0;
      AtInv(c, f, n);
      JoinerStep(c, At(c, f, n));
    }
  }

  // ----- a fair schedule completes

  predicate NeedsRelease(k: Task) {
    k.pc.PeekRead? || k.pc.WaitRead? || k.pc.ReleaseRead?
  }

  /** A task that wants to go on is ready or needs one word to be free. */
  lemma FreeHelps(c: Config, s: State, t: nat)
    requires Inv(c, s) && t < c.ntasks && Wants(s, TaskActor(t)) && !Ready(s, TaskActor(t))
    requires s.barrierWord != 0
    requires NeedsRelease(s.tasks[t]) ==> s.releaseWord != 0
    requires s.tasks[t].pc.ExitRead? ==> s.exitWord != 0
    ensures Helpful(s, TaskActor(t))
  {
    hide Count, WordInv, TasksInv;
    Focus(c, s, t, s.tasks[t]);
  }

  /** A ready actor stays helpful until it is served. */
  lemma ReadyStaysHelpful(c: Config, f: Schedule, k: nat, a: Actor, m: nat)
    requires ValidConfig(c) && LegalForever(c, f) && c.ntasks + 1 < WORD && Idling(c, f, k) && k <= m
    requires LegalActor(c, a) && Ready(At(c, f, k), a)
    ensures HelpfulAt(c, f, a, m)
  {
    hide Inv, SameCore, Wants, Helpful;
    AtInv(c, f, k);
    AtInv(c, f, m);
    CoreKept(c, f, k, m);
    WantsKept(c, At(c, f, k), At(c, f, m), a);
    ReadyHelps(c, At(c, f, m), a);
  }

  lemma ReadyIsServed(c: Config, f: Schedule, k: nat, a: Actor)
    requires ValidConfig(c) && LegalForever(c, f) && c.ntasks + 1 < WORD && Fair(c, f)
    requires LegalActor(c, a) && Ready(At(c, f, k), a)
    ensures !Idling(c, f, k)
  {
    hide Fair, Wants, HelpfulAt;
    if Idling(c, f, k) {
      forall i: nat ensures HelpfulFrom(c, f, a, i) {
        ReadyStaysHelpful(c, f, k, a, if i < k then k else i);
      }
      WantingIsServed(c, f, k, a);
    }
  }

  lemma NobodyReadyLater(c: Config, f: Schedule, k: nat, m: nat)
    requires ValidConfig(c) && LegalForever(c, f) && c.ntasks + 1 < WORD && Idling(c, f, k) && k <= m
    requires NobodyReady(c, At(c, f, k))
    ensures NobodyReady(c, At(c, f, m))
  {
    hide Inv, SameCore, NobodyReady, Idling;
    AtInv(c, f, k);
    AtInv(c, f, m);
    CoreKept(c, f, k, m);
    NobodyReadyKept(c, At(c, f, k), At(c, f, m));
  }

  /** A task that waits for a word finds it free again and again. */
  lemma WaitingIsHelpful(c: Config, f: Schedule, k: nat, t: nat, i: nat)
    requires ValidConfig(c) && LegalForever(c, f) && c.ntasks + 1 < WORD && Fair(c, f) && Idling(c, f, k)
    requires k <= i && t < c.ntasks && Wants(At(c, f, k), TaskActor(t)) && NobodyReady(c, At(c, f, k))
    ensures HelpfulFrom(c, f, TaskActor(t), i)
  {
    hide Inv, Fair, Idling, SameCore, Wants, Helpful, NobodyReady, Ready;
    forall n: nat | k <= n ensures NobodyReady(c, At(c, f, n)) {
      NobodyReadyLater(c, f, k, n);
    }
    var n := i;
    if NeedsRelease(At(c, f, k).tasks[t]) {
      ReleaseFreeAgain(c, f, i);
      n :| i <= n && At(c, f, n).releaseWord != 0;
    } else if At(c, f, k).tasks[t].pc.ExitRead? {
      ExitFreeAgain(c, f, i);
      n :| i <= n && At(c, f, n).exitWord != 0;
    }
    AtInv(c, f, k);
    AtInv(c, f, n);
    CoreKept(c, f, k, n);
    WantsKept(c, At(c, f, k), At(c, f, n), TaskActor(t));
    OnlyPollsHold(c, At(c, f, n));
    NotReady(c, At(c, f, n), TaskActor(t));
    FreeHelps(c, At(c, f, n), t);
    assert HelpfulAt(c, f, TaskActor(t), n);
  }

  lemma NotReady(c: Config, s: State, a: Actor)
    requires |s.tasks| == c.ntasks && NobodyReady(c, s) && LegalActor(c, a)
    ensures !Ready(s, a)
  {
  }

  /** Short of completion a fair schedule lowers the distance at some later step. */
  lemma NotIdling(c: Config, f: Schedule, k: nat)
    requires ValidConfig(c) && LegalForever(c, f) && c.ntasks + 1 < WORD && Uniform(c) && Fair(c, f)
    requires !Complete(At(c, f, k))
    ensures !Idling(c, f, k)
  {
    hide Inv, Fair, Idling, Complete, Uniform, Wants;
    if Idling(c, f, k) {
      AtInv(c, f, k);
      if a :| LegalActor(c, a) && Ready(At(c, f, k), a) {
        ReadyIsServed(c, f, k, a);
      } else {
        var a := SomebodyWants(c, At(c, f, k));
        assert !Ready(At(c, f, k), a);
        forall i: nat ensures HelpfulFrom(c, f, a, i) {
          var j := if i < k then k else i;
          WaitingIsHelpful(c, f, k, a.t, j);
          var n: nat :| j <= n && HelpfulAt(c, f, a, n);
        }
        WantingIsServed(c, f, k, a);
      }
    }
  }

  lemma {:induction false} DistanceNeverGrows(c: Config, f: Schedule, k: nat, m: nat)
    requires ValidConfig(c) && LegalForever(c, f) && c.ntasks + 1 < WORD && k <= m
    ensures Remaining(c, At(c, f, m)) <= Remaining(c, At(c, f, k))
    decreases m
  {
    hide Inv, Remaining, Step, Lowers;
    if k < m {
      DistanceNeverGrows(c, f, k, m - 1);
      AtInv(c, f, m - 1);
      assert LegalActor(c, f(m - 1));
      StepExact(c, At(c, f, m - 1), f(m - 1));
    }
  }

  lemma DistanceSign(c: Config, f: Schedule, k: nat)
    requires ValidConfig(c) && LegalForever(c, f) && c.ntasks + 1 < WORD && Uniform(c)
    ensures Remaining(c, At(c, f, k)) >= 0
  {
    AtInv(c, f, k);
    RemainingSign(c, At(c, f, k));
  }

  lemma CloserNext(c: Config, f: Schedule, m: nat)
    requires ValidConfig(c) && LegalForever(c, f) && c.ntasks + 1 < WORD
    requires LegalActor(c, f(m)) && Lowers(At(c, f, m), f(m))
    ensures Remaining(c, At(c, f, m + 1)) < Remaining(c, At(c, f, m))
  {
    hide Inv, Remaining, Step, Lowers;
    AtInv(c, f, m);
    StepExact(c, At(c, f, m), f(m));
  }

  lemma CloserLater(c: Config, f: Schedule, k: nat) returns (m: nat)
    requires ValidConfig(c) && LegalForever(c, f) && c.ntasks + 1 < WORD && Uniform(c) && Fair(c, f)
    requires !Complete(At(c, f, k))
    ensures Remaining(c, At(c, f, m)) < Remaining(c, At(c, f, k))
  {
    hide Inv, Fair, Uniform, Complete, Remaining, Lowers, At;
    NotIdling(c, f, k);
    m :| k <= m && LegalActor(c, f(m)) && Lowers(At(c, f, m), f(m));
    DistanceNeverGrows(c, f, k, m);
    CloserNext(c, f, m);
    m := m + 1;
  }

  lemma {:induction false} FairCompletes(c: Config, f: Schedule, k: nat)
    requires ValidConfig(c) && LegalForever(c, f) && c.ntasks + 1 < WORD && Uniform(c) && Fair(c, f)
    ensures Completes(c, f)
    decreases Remaining(c, At(c, f, k))
  {
    hide Fair, Uniform, Complete, Remaining, At;
    if !Complete(At(c, f, k)) {
      var m := CloserLater(c, f, k);
      DistanceSign(c, f, k);
      FairCompletes(c, f, m);
    }
  }

  // ----- and no other does

  lemma CompleteStep(c: Config, s: State, a: Actor)
    requires ValidConfig(c) && |s.tasks| == c.ntasks && LegalActor(c, a) && Complete(s)
    ensures Step(c, s, a) == s && !Helpful(s, a)
  {
    assert a.TaskActor? ==> s.tasks[a.t] in s.tasks;
  }

  lemma {:induction false} CompleteStays(c: Config, f: Schedule, k: nat, m: nat)
    requires ValidConfig(c) && LegalForever(c, f) && k <= m && Complete(At(c, f, k))
    ensures Complete(At(c, f, m))
    decreases m
  {
    hide Complete, Step;
    if k < m {
      CompleteStays(c, f, k, m - 1);
      assert LegalActor(c, f(m - 1));
      CompleteStep(c, At(c, f, m - 1), f(m - 1));
    }
  }

  lemma CompletedIsFair(c: Config, f: Schedule)
    requires ValidConfig(c) && LegalForever(c, f) && Completes(c, f)
    ensures Fair(c, f)
  {
    hide Complete;
    var k: nat :| Complete(At(c, f, k));
    forall a | LegalActor(c, a) ensures !HelpfulAgainAndAgain(c, f, a) {
      if HelpfulAgainAndAgain(c, f, a) {
        assert HelpfulFrom(c, f, a, k);
        var m: nat :| k <= m && HelpfulAt(c, f, a, m);
        CompleteStays(c, f, k, m);
        CompleteStep(c, At(c, f, m), a);
      }
    }
  }

  /** Whatever the infinite schedule, it completes a group whose tasks call the barrier equally often
      exactly when every actor that can help again and again does help again and again. */
  lemma FairExactlyCompletes(c: Config, f: Schedule)
    requires ValidConfig(c) && LegalForever(c, f) && c.ntasks + 1 < WORD && Uniform(c)
    ensures Fair(c, f) <==> Completes(c, f)
  {
    if Fair(c, f) {
      FairCompletes(c, f, 0);
    }
    if Completes(c, f) {
      CompletedIsFair(c, f);
    }
  }
}
