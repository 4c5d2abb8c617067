/** The runtime as it updates its memory: event words, spawning, and the atomic steps of a task and
    of the joining main thread, each proved to be the step of the protocol. */
module Runtime {
  import opened Workgroup

  class EventWord {
    var value: nat

    constructor (value: nat)
      ensures this.value == value
    {
      this.value := value;
    }

    /** Returns the word and leaves 0 in it. */
    method ReadSynchronization() returns (v: nat)
      modifies this
      ensures v == old(value) && value == 0
    {
      v := value;
      value := 0;
    }

    method WriteSynchronization(v: nat)
      modifies this
      ensures value == v
    {
      value := v;
    }
  }

  class TaskGroup {
    const config: Config
    const exit: EventWord
    const barrier: EventWord
    const release: EventWord
    const tasks: array<Task>
    var joiner: JoinPc
    var joinValue: nat
    var finished: nat

    ghost predicate Valid()
      reads this, tasks
    {
      && ValidConfig(config) && tasks.Length == config.ntasks
      && exit != barrier && exit != release && barrier != release
    }

    ghost function Snapshot(): State
      reads this, exit, barrier, release, tasks
    {
      State(exit.value, barrier.value, release.value, tasks[..], joiner, joinValue, finished)
    }

    /** Sets up the three words and starts the tasks one after the other. */
    constructor Spawn(config: Config)
      requires ValidConfig(config)
      ensures Valid() && this.config == config && Snapshot() == Spawned(config)
      ensures fresh(exit) && fresh(barrier) && fresh(release) && fresh(tasks)
    {
      this.config := config;
      var range := config.ntasks;
      exit := new EventWord(Wrap(range + 1));
      barrier := new EventWord(Wrap(range + 1));
      release := new EventWord(2);
      var started := new Task[range](_ => Task(Gone, 0, 0, 0));
      for i := 0 to range
        modifies started
        invariant forall k :: 0 <= k < i ==> started[k] == Task(Idle, 0, 0, 0)
      {
        started[i] := Task(Idle, 0, 0, 0);
      }
      tasks := started;
      joiner, joinValue, finished := JoinRead, 0, 0;
      new;
      assert tasks[..] == Spawned(config).tasks;
    }

    /** The next atomic step of task `t`: at most one read or one write of one word. */
    method StepTask(t: nat)
      requires Valid() && t < config.ntasks
      modifies this`finished, exit, barrier, release, tasks
      ensures Valid() && Snapshot() == TaskStep(config, old(Snapshot()), t)
    {
      var k := tasks[t];
      match k.pc {
        case Idle =>
          tasks[t] := k.(pc := if k.done < config.calls[t] then PeekRead else ExitRead);
        case PeekRead | WaitRead | ReleaseRead =>
          var v := release.ReadSynchronization();
          if v != 0 {
            tasks[t] := k.(pc := NextPc(k.pc), value := v);
          }
        case SignalRead | ResetRead =>
          var v := barrier.ReadSynchronization();
          if v != 0 {
            tasks[t] := k.(pc := NextPc(k.pc), value := v);
          }
        case ExitRead =>
          var v := exit.ReadSynchronization();
          if v != 0 {
            tasks[t] := k.(pc := NextPc(k.pc), value := v);
          }
        case PeekWrite =>
          release.WriteSynchronization(k.value);
          tasks[t] := k.(pc := SignalRead, go := if k.value == 1 then 2 else 1);
        case SignalWrite =>
          var count := Wrap(k.value - 1);
          barrier.WriteSynchronization(count);
          tasks[t] := k.(pc := if count > 1 then WaitRead else ResetRead);
        case WaitWrite =>
          release.WriteSynchronization(k.value);
          tasks[t] := if k.value != k.go then k.(pc := WaitRead) else k.(pc := Idle, done := k.done + 1);
        case ResetWrite =>
          barrier.WriteSynchronization(Wrap(config.ntasks + 1));
          tasks[t] := k.(pc := ReleaseRead);
        case ReleaseWrite =>
          release.WriteSynchronization(k.go);
          tasks[t] := k.(pc := Idle, done := k.done + 1);
          finished := finished + 1;
        case ExitWrite =>
          exit.WriteSynchronization(Wrap(k.value - 1));
          tasks[t] := k.(pc := Gone);
        case Gone =>
      }
    }

    /** The next atomic step of the main thread in join. */
    method StepMain()
      requires Valid()
      modifies this`joiner, this`joinValue, exit
      ensures Valid() && Snapshot() == JoinStep(old(Snapshot()))
    {
      match joiner {
        case JoinRead =>
          var v := exit.ReadSynchronization();
          if v != 0 {
            joiner, joinValue := JoinWrite, v;
          }
        case JoinWrite =>
          exit.WriteSynchronization(joinValue);
          joiner := if joinValue == READ then Joined else JoinRead;
        case Joined =>
      }
    }
  }

  /** A read that saw a value is followed by the write that gives the word back. */
  function NextPc(pc: Pc): Pc {
    match pc
    case PeekRead => PeekWrite
    case SignalRead => SignalWrite
    case WaitRead => WaitWrite
    case ResetRead => ResetWrite
    case ReleaseRead => ReleaseWrite
    case ExitRead => ExitWrite
    case _ => pc
  }

  /** Spawns a group and lets its actors take their steps in the given order. */
  method Execute(config: Config, schedule: seq<Actor>) returns (group: TaskGroup)
    requires ValidConfig(config) && Legal(config, schedule)
    ensures fresh(group) && group.Valid() && group.config == config
    ensures group.Snapshot() == Run(config, schedule)
  {
    group := new TaskGroup.Spawn(config);
    assert schedule[..0] == [];
    for i := 0 to |schedule|
      invariant group.Valid() && group.config == config && fresh(group)
      invariant fresh(group.exit) && fresh(group.barrier) && fresh(group.release) && fresh(group.tasks)
      invariant Legal(config, schedule[..i]) && group.Snapshot() == Run(config, schedule[..i])
    {
      assert schedule[..i + 1][..i] == schedule[..i];
      assert schedule[i] in schedule;
      match schedule[i] {
        case TaskActor(t) => group.StepTask(t);
        case Main => group.StepMain();
      }
    }
    assert schedule[..|schedule|] == schedule;
  }
}
