/** Register contexts across context switches (kernel/src/cpu/aarch64/cpu_context.s, kernel/src/task/scheduler.rs). */
module ContextSwitch {
  import opened Wrappers
  import opened Scheduling

  /** x19 to x28, fp, lr, sp */
  const REGISTER_COUNT: nat := 13

  type Registers = r: seq<nat> | |r| == REGISTER_COUNT witness seq(REGISTER_COUNT, _ => 0)

  /** The seven stores to `prev`. */
  method SaveRegisters(cpu: array<nat>, prev: array<nat>)
    requires cpu.Length == REGISTER_COUNT && prev.Length == REGISTER_COUNT && cpu != prev
    modifies prev
    ensures prev[..] == cpu[..]
  {
    var x9 := cpu[12];
    prev[0], prev[1] := cpu[0], cpu[1];
    prev[2], prev[3] := cpu[2], cpu[3];
    prev[4], prev[5] := cpu[4], cpu[5];
    prev[6], prev[7] := cpu[6], cpu[7];
    prev[8], prev[9] := cpu[8], cpu[9];
    prev[10], prev[11] := cpu[10], cpu[11];
    prev[12] := x9;
  }

  /** The seven loads from `next`. */
  method LoadRegisters(cpu: array<nat>, next: array<nat>)
    requires cpu.Length == REGISTER_COUNT && next.Length == REGISTER_COUNT && cpu != next
    modifies cpu
    ensures cpu[..] == next[..]
  {
    cpu[0], cpu[1] := next[0], next[1];
    cpu[2], cpu[3] := next[2], next[3];
    cpu[4], cpu[5] := next[4], next[5];
    cpu[6], cpu[7] := next[6], next[7];
    cpu[8], cpu[9] := next[8], next[9];
    cpu[10], cpu[11] := next[10], next[11];
    var x9 := next[12];
    cpu[12] := x9;
  }

  /** `cpu_context_switch` up to its tail call: `cpu` is the register file; the two contexts may be one. */
  method CpuContextSwitch(cpu: array<nat>, prev: array<nat>, next: array<nat>)
    requires cpu.Length == REGISTER_COUNT && prev.Length == REGISTER_COUNT && next.Length == REGISTER_COUNT
    requires cpu != prev && cpu != next
    modifies cpu, prev
    ensures prev[..] == old(cpu[..])
    ensures cpu[..] == if prev == next then old(cpu[..]) else old(next[..])
  {
    SaveRegisters(cpu, prev);
    LoadRegisters(cpu, next);
  }

  // ---- Whole runs ----

  /** The scheduler, each core's registers, and each task's saved context. */
  datatype Machine = Machine(sched: Sched, cpus: seq<Registers>, saved: map<TaskId, Registers>)

  datatype Event =
    | Compute(core: nat, registers: Registers)   // the core's task runs and changes its registers
    | Add(id: TaskId, initial: Registers)
    | Call(core: nat)

  ghost predicate MachineOk(m: Machine)
  {
    Conserved(m.sched) && |m.cpus| == |m.sched.current| && m.saved.Keys == m.sched.tasks
  }

  predicate CanStep(m: Machine, e: Event)
  {
    match e
    case Compute(c, _) => c < |m.cpus|
    case Add(id, _) => id !in m.sched.tasks
    case Call(c) => HasCurrent(m.sched, c)
  }

  ghost function Step(m: Machine, e: Event): (m': Machine)
    requires MachineOk(m) && CanStep(m, e)
    ensures MachineOk(m')
  {
    match e
    case Compute(c, registers) => m.(cpus := m.cpus[c := registers])
    case Add(id, initial) =>
      AddKeepsConserved(m.sched, id);
      m.(sched := AddTask(m.sched, id), saved := m.saved[id := initial])
    case Call(c) =>
      ScheduleKeepsConserved(m.sched, c);
      var saved := m.saved[m.sched.current[c].value := m.cpus[c]];
      Machine(Schedule(m.sched, c), m.cpus[c := saved[Next(m.sched, c)]], saved)
  }

  ghost predicate CanRun(m: Machine, events: seq<Event>)
    requires MachineOk(m)
    decreases |events|, 0
  {
    |events| == 0 ||
    (CanRun(m, events[..|events| - 1]) && CanStep(Run(m, events[..|events| - 1]), events[|events| - 1]))
  }

  ghost function Run(m: Machine, events: seq<Event>): (m': Machine)
    requires MachineOk(m) && CanRun(m, events)
    ensures MachineOk(m')
    decreases |events|, 1
  {
    if |events| == 0 then m else Step(Run(m, events[..|events| - 1]), events[|events| - 1])
  }

  /** The registers at a task's last switch-out, read off the history; its initial context if there was none. */
  ghost function LastContext(m: Machine, events: seq<Event>, t: TaskId): Option<Registers>
    requires MachineOk(m) && CanRun(m, events)
    decreases |events|
  {
    if |events| == 0 then if t in m.saved then Some(m.saved[t]) else None
    else
      var before := Run(m, events[..|events| - 1]);
      match events[|events| - 1]
      case Call(c) =>
        if before.sched.current[c] == Some(t) then Some(before.cpus[c]) else LastContext(m, events[..|events| - 1], t)
      case Add(id, initial) =>
        if id == t then Some(initial) else LastContext(m, events[..|events| - 1], t)
      case Compute(_, _) => LastContext(m, events[..|events| - 1], t)
  }

  // A task in the queue has its last context saved.
  lemma {:induction false} QueuedContext(m: Machine, events: seq<Event>, t: TaskId)
    requires MachineOk(m) && CanRun(m, events) && t in Run(m, events).sched.queue
    ensures t in Run(m, events).saved && LastContext(m, events, t) == Some(Run(m, events).saved[t])
    decreases |events|
  {
    InTasks(Run(m, events).sched, t);
    if |events| > 0 {
      var before := Run(m, events[..|events| - 1]);
      var e := events[|events| - 1];
      match e {
        case Compute(_, _) => QueuedContext(m, events[..|events| - 1], t);
        case Add(id, initial) =>
          if t != id {
            QueuedContext(m, events[..|events| - 1], t);
          }
        case Call(c) =>
          if before.sched.current[c] != Some(t) {
            QueuedContext(m, events[..|events| - 1], t);
          }
      }
    }
  }

  lemma InTasks(s: Sched, t: TaskId)
    requires Conserved(s) && t in s.queue
    ensures t in s.tasks
  {
    assert t in multiset(s.queue) && t in multiset(s.tasks);
  }

  /** Over every run of any cores: when a task becomes current, its core's registers are those of its last
      switch-out, or its initial context if it never ran; also when it is switched to itself. */
  lemma ContextPreserved(m: Machine, events: seq<Event>, c: nat)
    requires MachineOk(m) && |events| > 0 && events[|events| - 1] == Event.Call(c) && CanRun(m, events)
    ensures var m' := Run(m, events);
            HasCurrent(m'.sched, c) && LastContext(m, events, m'.sched.current[c].value) == Some(m'.cpus[c])
  {
    var before := Run(m, events[..|events| - 1]);
    var next := Next(before.sched, c);
    ScheduleKeepsConserved(before.sched, c);
    if before.sched.current[c] != Some(next) {
      QueuedContext(m, events[..|events| - 1], next);
    }
  }
}
