/** The `Scheduler` class of kernel/src/task/scheduler.rs, one call at a time: what interleaving does to its lock is
    the subject of `Handoff`. */
module Scheduler {
  import opened Wrappers
  import opened Scheduling
  import opened ContextSwitch

  class Task {
    const id: TaskId
    const registers: array<nat>

    constructor (id: TaskId, registers: array<nat>)
      ensures this.id == id && this.registers == registers
    {
      this.id, this.registers := id, registers;
    }
  }

  /** The core that makes a call: its number, IRQ mask and registers. */
  class Core {
    const number: nat
    const registers: array<nat>
    var masked: bool

    constructor (number: nat, registers: array<nat>)
      ensures this.number == number && this.registers == registers && masked
    {
      this.number, this.registers, masked := number, registers, true;
    }
  }

  class Scheduler {
    var locked: bool
    var tasks: map<TaskId, Task>
    var queue: seq<TaskId>
    var currentTasks: seq<Option<TaskId>>

    constructor (numCores: nat)
      ensures Valid() && State() == Sched({}, [], seq(numCores, _ => None)) && !locked
    {
      locked, tasks, queue := false, map[], [];
      currentTasks := seq(numCores, _ => None);
      new;
      NobodyRuns(currentTasks);
    }

    ghost function State(): Sched
      reads this
    {
      Sched(tasks.Keys, queue, currentTasks)
    }

    ghost predicate Valid()
      reads this
    {
      && Conserved(State())
      && forall id | id in tasks :: tasks[id].id == id && tasks[id].registers.Length == REGISTER_COUNT
    }

    /** `become_kinit` on core 0: the task adopts the core and schedules; its id is returned. */
    method BecomeKinit(core: Core, task: Task) returns (r: Result<TaskId>)
      requires Valid() && !locked && tasks == map[] && task.registers.Length == REGISTER_COUNT
      requires core.number == 0 < |currentTasks| && currentTasks[0].None?
      requires core.registers.Length == REGISTER_COUNT && core.registers != task.registers
      modifies this, core, core.registers, task.registers
      ensures Valid() && !locked && !core.masked && r == Ok(task.id)
      ensures State() == AdoptTask(old(State()), 0, task.id)
      ensures core.registers[..] == old(core.registers[..]) && task.registers[..] == old(core.registers[..])
    {
      AdoptKeepsConserved(State(), 0, task.id);
      var saved := core.masked;
      core.masked := true;
      locked := true;
      tasks := tasks[task.id := task];
      currentTasks := currentTasks[core.number := Some(task.id)];
      locked := false;
      core.masked := saved;
      EmptyQueue(old(State()));
      Schedule(core);
      return Ok(task.id);
    }

    method AddTask(core: Core, task: Task) returns (r: Result<TaskId>)
      requires Valid() && !locked && task.registers.Length == REGISTER_COUNT
      modifies this, core
      ensures Valid() <==> task.id !in old(tasks)
      ensures !locked && core.masked == old(core.masked) && r == Ok(task.id)
      ensures State() == Scheduling.AddTask(old(State()), task.id)
    {
      AddKeepsConserved(State(), task.id);
      ghost var registered := tasks.Keys + {task.id};
      var saved := core.masked;
      core.masked := true;
      locked := true;
      tasks := tasks[task.id := task];
      assert tasks.Keys == registered;
      queue := queue + [task.id];
      locked := false;
      core.masked := saved;
      return Ok(task.id);
    }

    method CurrentTaskId(core: Core) returns (id: TaskId)
      requires Valid() && !locked && HasCurrent(State(), core.number)
      modifies this`locked, core
      ensures !locked && core.masked == old(core.masked)
      ensures id in tasks && id !in queue && Some(id) == currentTasks[core.number]
    {
      ConservedMeans(State(), core.number, core.number);
      var saved := core.masked;
      core.masked := true;
      locked := true;
      id := currentTasks[core.number].value;
      locked := false;
      core.masked := saved;
    }

    /** `schedule` and, in the incoming task's context, `after_schedule`. */
    method Schedule(core: Core)
      requires Valid() && !locked && HasCurrent(State(), core.number)
      requires core.registers.Length == REGISTER_COUNT && forall id | id in tasks :: tasks[id].registers != core.registers
      modifies this`locked, this`queue, this`currentTasks, core, core.registers,
               set id | id in tasks && Some(id) == currentTasks[core.number] :: tasks[id].registers
      ensures Valid() && !locked && !core.masked
      ensures State() == Scheduling.Schedule(old(State()), core.number)
      ensures var prev, next := old(currentTasks[core.number].value), currentTasks[core.number].value;
              && prev in tasks && next in tasks
              && tasks[prev].registers[..] == old(core.registers[..])
              && core.registers[..] ==
                 if tasks[prev].registers == tasks[next].registers then old(core.registers[..]) else old(tasks[next].registers[..])
    {
      ScheduleKeepsConserved(State(), core.number);
      locked := true;
      var prevId := currentTasks[core.number].value;
      queue := queue + [prevId];
      var nextId := queue[0];
      queue := queue[1..];
      currentTasks := currentTasks[core.number := Some(nextId)];
      var prev, next := tasks[prevId], tasks[nextId];
      CpuContextSwitch(core.registers, prev.registers, next.registers);
      AfterSchedule(core);
    }

    method AfterSchedule(core: Core)
      modifies this`locked, core
      ensures !locked && !core.masked
    {
      locked := false;
      core.masked := false;
    }
  }

  lemma {:induction false} NobodyRuns(current: seq<Option<TaskId>>)
    requires forall c | c in current :: c.None?
    ensures Running(current) == multiset{}
  {
    if |current| > 0 {
      assert current[0] in current;
      NobodyRuns(current[1..]);
    }
  }

  lemma EmptyQueue(s: Sched)
    requires Conserved(s) && s.tasks == {}
    ensures s.queue == []
  {
    assert |multiset(s.queue)| + |Running(s.current)| == |multiset(s.tasks)| == 0;
  }
}
