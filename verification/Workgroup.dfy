/** The device-side task group: tasks that meet at barriers and then exit, and the main thread that
    joins them. Each semaphore-protected read or write of an event word is one step; a schedule is
    the order in which the actors take their steps. */
module Workgroup {

  const WORD: nat := 0x1_0000_0000  // event words have 32 bits
  const READ: nat := 1              // the word value a joiner waits for

  function Wrap(x: int): nat {
    x % WORD
  }

  /** Where a task stands. A read leaves 0 in the word, so between a `...Read` that saw a value and
      the `...Write` that follows it the task holds the word. */
  datatype Pc =
    | Idle
    | PeekRead | PeekWrite        // look at the release word
    | SignalRead | SignalWrite    // count down the barrier word
    | WaitRead | WaitWrite        // poll the release word
    | ResetRead | ResetWrite      // last arriver: restore the barrier word
    | ReleaseRead | ReleaseWrite  // last arriver: let the others go
    | ExitRead | ExitWrite        // count down the exit word
    | Gone

  /** `value` is the last word read, `go` the release value waited for, `done` the barriers passed. */
  datatype Task = Task(pc: Pc, go: nat, value: nat, done: nat)

  datatype JoinPc = JoinRead | JoinWrite | Joined

  /** `calls[t]` is how often task `t` calls the barrier before it exits. */
  datatype Config = Config(ntasks: nat, calls: seq<nat>)

  /** `finished` counts released rounds; no step depends on it. */
  datatype State = State(exitWord: nat, barrierWord: nat, releaseWord: nat, tasks: seq<Task>,
                         joiner: JoinPc, joinValue: nat, finished: nat)

  datatype Actor = TaskActor(t: nat) | Main

  ghost predicate ValidConfig(c: Config) {
    |c.calls| == c.ntasks < WORD
  }

  /** The words and tasks that spawning sets up. */
  function Spawned(c: Config): State
    requires ValidConfig(c)
  {
    State(Wrap(c.ntasks + 1), Wrap(c.ntasks + 1), 2, seq(c.ntasks, _ => Task(Idle, 0, 0, 0)), JoinRead, 0, 0)
  }

  function Flip(go: nat): nat {
    if go == 1 then 2 else 1
  }

  /** One step of task `t`. A read that sees 0 changes nothing: the task will read again. */
  function TaskStep(c: Config, s: State, t: nat): (s': State)
    requires ValidConfig(c) && |s.tasks| == c.ntasks && t < c.ntasks
    ensures |s'.tasks| == c.ntasks
  {
    var k := s.tasks[t];
    match k.pc
    case Idle =>
      Put(s, t, k.(pc := if k.done < c.calls[t] then PeekRead else ExitRead))
    case PeekRead =>
      if s.releaseWord == 0 then s
      else Put(s, t, k.(pc := PeekWrite, value := s.releaseWord)).(releaseWord := 0)
    case PeekWrite =>
      Put(s, t, k.(pc := SignalRead, go := Flip(k.value))).(releaseWord := k.value)
    case SignalRead =>
      if s.barrierWord == 0 then s
      else Put(s, t, k.(pc := SignalWrite, value := s.barrierWord)).(barrierWord := 0)
    case SignalWrite =>
      var count := Wrap(k.value - 1);
      Put(s, t, k.(pc := if count > 1 then WaitRead else ResetRead)).(barrierWord := count)
    case WaitRead =>
      if s.releaseWord == 0 then s
      else Put(s, t, k.(pc := WaitWrite, value := s.releaseWord)).(releaseWord := 0)
    case WaitWrite =>
      if k.value != k.go then Put(s, t, k.(pc := WaitRead)).(releaseWord := k.value)
      else Put(s, t, k.(pc := Idle, done := k.done + 1)).(releaseWord := k.value)
    case ResetRead =>
      if s.barrierWord == 0 then s
      else Put(s, t, k.(pc := ResetWrite, value := s.barrierWord)).(barrierWord := 0)
    case ResetWrite =>
      Put(s, t, k.(pc := ReleaseRead)).(barrierWord := Wrap(c.ntasks + 1))
    case ReleaseRead =>
      if s.releaseWord == 0 then s
      else Put(s, t, k.(pc := ReleaseWrite, value := s.releaseWord)).(releaseWord := 0)
    case ReleaseWrite =>
      Put(s, t, k.(pc := Idle, done := k.done + 1)).(releaseWord := k.go, finished := s.finished + 1)
    case ExitRead =>
      if s.exitWord == 0 then s
      else Put(s, t, k.(pc := ExitWrite, value := s.exitWord)).(exitWord := 0)
    case ExitWrite =>
      Put(s, t, k.(pc := Gone)).(exitWord := Wrap(k.value - 1))
    case Gone => s
  }

  function Put(s: State, t: nat, k: Task): State
    requires t < |s.tasks|
  {
    s.(tasks := s.tasks[t := k])
  }

  /** One step of the main thread inside join. */
  function JoinStep(s: State): State {
    match s.joiner
    case JoinRead =>
      if s.exitWord == 0 then s else s.(joiner := JoinWrite, joinValue := s.exitWord, exitWord := 0)
    case JoinWrite =>
      s.(joiner := if s.joinValue == READ then Joined else JoinRead, exitWord := s.joinValue)
    case Joined => s
  }

  ghost predicate Legal(c: Config, schedule: seq<Actor>) {
    forall a :: a in schedule ==> a.Main? || a.t < c.ntasks
  }

  function Step(c: Config, s: State, a: Actor): (s': State)
    requires ValidConfig(c) && |s.tasks| == c.ntasks && (a.Main? || a.t < c.ntasks)
    ensures |s'.tasks| == c.ntasks
  {
    match a
    case TaskActor(t) => TaskStep(c, s, t)
    case Main => JoinStep(s)
  }

  /** The state after a schedule, from the state spawning leaves. */
  function Run(c: Config, schedule: seq<Actor>): (s: State)
    requires ValidConfig(c) && Legal(c, schedule)
    ensures |s.tasks| == c.ntasks
  {
    if |schedule| == 0 then Spawned(c)
    else Step(c, Run(c, schedule[..|schedule| - 1]), schedule[|schedule| - 1])
  }

  /** The task is inside a barrier call. */
  predicate InBarrier(k: Task) {
    !(k.pc.Idle? || k.pc.ExitRead? || k.pc.ExitWrite? || k.pc.Gone?)
  }

  /** How often the task has called the barrier so far. */
  function Called(k: Task): nat {
    k.done + if InBarrier(k) then 1 else 0
  }
}
