/** The scheduler's lock across a context switch: cores, interrupt masks, registers, and the lock that one task
    takes in `schedule` and another releases in `after_schedule` (kernel/src/task/scheduler.rs,
    kernel/src/cpu/aarch64/interrupt_mask.rs, kernel/src/sync/lock.rs), as a machine of interleaved steps. */
module Handoff {
  import opened Wrappers
  import opened Scheduling
  import C = ContextSwitch

  /** What a closure behind `critical` and the lock does. */
  datatype Op = Register(id: TaskId, initial: C.Registers) | Inspect

  /** Where a task is inside the code around the lock. */
  datatype Frame =
    | CritSpin(saved: bool, op: Op)   // interrupts disabled, waiting for the lock
    | CritHeld(saved: bool, op: Op)   // in the closure
    | CritLeave(saved: bool)          // before `unlock`
    | CritExit(saved: bool)           // before `restore_interrupts`
    | SchedSpin                       // in `schedule`, waiting for the lock
    | SchedHeld                       // in `schedule`, before the context switch
    | Landing                         // switched in: before `unlock` in `after_schedule`
    | Unmask                          // before `enable_interrupts` in `after_schedule`

  datatype Why = InCritical | InSchedule

  datatype Event =
    | Acquired(core: nat, task: TaskId, why: Why)
    | Switched(core: nat, from: TaskId, to: TaskId)
    | Released(core: nat, task: TaskId, why: Why)

  /** The lock, each core's IRQ mask and registers, each task's stack of frames and saved context, the scheduler,
      the cores still in their boot code, and the history of the lock. */
  datatype Machine = Machine(
    lock: bool, masks: seq<bool>, cpus: seq<C.Registers>, frames: map<TaskId, seq<Frame>>, saved: map<TaskId, C.Registers>,
    sched: Sched, booting: set<nat>, log: seq<Event>)

  datatype Action =
    | Irq(core: nat)                               // the timer interrupt, which masks and calls `schedule`
    | Trap(core: nat)                              // another exception, such as a system call: masks
    | Eret(core: nat, mask: bool)                  // the return from an exception restores some mask
    | Compute(core: nat, registers: C.Registers)   // the core's registers change
    | CallSchedule(core: nat)
    | CallCritical(core: nat, op: Op)
    | Go(core: nat)                                // on from the top frame

  // ---- Steps ----

  function Task(m: Machine, core: nat): TaskId
    requires HasCurrent(m.sched, core)
  {
    m.sched.current[core].value
  }

  /** The stack of the core's current task. */
  function Stack(m: Machine, core: nat): seq<Frame>
    requires HasCurrent(m.sched, core)
  {
    if Task(m, core) in m.frames then m.frames[Task(m, core)] else []
  }

  /** A timer interrupt needs an open mask. Calls come from code outside these functions; other than the
      interrupt handler only boot code calls `schedule`. New tasks have new ids. */
  predicate CanAct(m: Machine, a: Action)
  {
    && HasCurrent(m.sched, a.core) && a.core < |m.masks|
    && match a
       case Irq(c) => !m.masks[c]
       case Trap(c) => Stack(m, c) == [] && c !in m.booting
       case Eret(c, _) => Stack(m, c) == [] && c !in m.booting
       case Compute(c, _) => c < |m.cpus|
       case CallSchedule(c) => Stack(m, c) == [] && c in m.booting
       case CallCritical(c, _) => Stack(m, c) == []
       case Go(c) =>
         && Stack(m, c) != []
         && var top := Stack(m, c)[|Stack(m, c)| - 1];
            top.CritHeld? && top.op.Register? ==> top.op.id !in m.sched.tasks
  }

  /** The machine after a step of one task on one core. */
  function Local(m: Machine, core: nat, lock: bool, mask: bool, stack: seq<Frame>, log: seq<Event>): Machine
    requires HasCurrent(m.sched, core) && core < |m.masks|
  {
    m.(lock := lock, masks := m.masks[core := mask], frames := m.frames[Task(m, core) := stack], log := log)
  }

  function Act(m: Machine, a: Action): Machine
    requires CanAct(m, a)
  {
    var c := a.core;
    match a
    case Irq(_) => Local(m, c, m.lock, true, Stack(m, c) + [SchedSpin], m.log)
    case Trap(_) => Local(m, c, m.lock, true, [], m.log)
    case Eret(_, mask) => Local(m, c, m.lock, mask, [], m.log)
    case Compute(_, registers) => m.(cpus := m.cpus[c := registers])
    case CallSchedule(_) => Local(m.(booting := m.booting - {c}), c, m.lock, m.masks[c], Stack(m, c) + [SchedSpin], m.log)
    case CallCritical(_, op) => Local(m, c, m.lock, true, Stack(m, c) + [CritSpin(m.masks[c], op)], m.log)
    case Go(_) => Proceed(m, c, Stack(m, c)[..|Stack(m, c)| - 1], Stack(m, c)[|Stack(m, c)| - 1])
  }

  /** `cpu_context_switch`: save the outgoing context, load the incoming one. */
  function SwitchRegisters(m: Machine, c: nat, prev: TaskId, next: TaskId): Machine
  {
    if c >= |m.cpus| then m
    else
      var saved := m.saved[prev := m.cpus[c]];
      m.(saved := saved, cpus := if next in saved then m.cpus[c := saved[next]] else m.cpus)
  }

  /** The task on core `c` goes on from its top frame. */
  function Proceed(m: Machine, c: nat, below: seq<Frame>, top: Frame): Machine
    requires HasCurrent(m.sched, c) && c < |m.masks|
  {
    var t := Task(m, c);
    match top
    case CritSpin(saved, op) =>
      if m.lock then m
      else Local(m, c, true, m.masks[c], below + [CritHeld(saved, op)], m.log + [Acquired(c, t, InCritical)])
    case CritHeld(saved, op) =>
      var left := Local(m, c, m.lock, m.masks[c], below + [CritLeave(saved)], m.log);
      if op.Inspect? then left
      else left.(sched := AddTask(m.sched, op.id), frames := left.frames[op.id := [Landing]], saved := m.saved[op.id := op.initial])
    case CritLeave(saved) =>
      Local(m, c, false, m.masks[c], below + [CritExit(saved)], m.log + [Released(c, t, InCritical)])
    case CritExit(saved) => Local(m, c, m.lock, saved, below, m.log)
    case SchedSpin =>
      if m.lock then m
      else Local(m, c, true, m.masks[c], below + [SchedHeld], m.log + [Acquired(c, t, InSchedule)])
    case SchedHeld =>
      var next := Next(m.sched, c);
      var out := Local(m, c, m.lock, m.masks[c], below + [Landing], m.log + [Switched(c, t, next)]);
      SwitchRegisters(out.(sched := Schedule(m.sched, c)), c, t, next)
    case Landing => Local(m, c, false, m.masks[c], below + [Unmask], m.log + [Released(c, t, InSchedule)])
    case Unmask => Local(m, c, m.lock, false, below, m.log)
  }

  // ---- The invariant ----

  function Last(log: seq<Event>): Option<Event>
  {
    if |log| == 0 then None else Some(log[|log| - 1])
  }

  /** The core that holds the lock. */
  function Holder(log: seq<Event>): Option<nat>
  {
    var last := Last(log);
    if last.None? || last.value.Released? then None else Some(last.value.core)
  }

  /** `e` may follow `last`: an acquisition when the lock is free; a switch only by the core that
      acquired in `schedule`; a release by the task that acquired, or by the one switched to. */
  predicate Follows(last: Option<Event>, e: Event)
  {
    match e
    case Acquired(_, _, _) => last.None? || last.value.Released?
    case Switched(c, from, _) => last == Some(Acquired(c, from, InSchedule))
    case Released(c, t, InCritical) => last == Some(Acquired(c, t, InCritical))
    case Released(c, t, InSchedule) => last.Some? && last.value.Switched? && last.value.core == c && last.value.to == t
  }

  /** The history is a sequence of blocks, each begun and ended on one core: acquire and release by one
      task in a critical section, or acquire, switch, and release by the incoming task. */
  predicate LogOk(log: seq<Event>)
  {
    |log| == 0 || (LogOk(log[..|log| - 1]) && Follows(Last(log[..|log| - 1]), log[|log| - 1]))
  }

  /** What a frame says about the history. */
  predicate Phase(log: seq<Event>, c: nat, t: TaskId, stack: seq<Frame>)
  {
    if stack == [] then Holder(log) != Some(c)
    else match stack[0]
      case CritHeld(_, _) => Last(log) == Some(Acquired(c, t, InCritical))
      case CritLeave(_) => Last(log) == Some(Acquired(c, t, InCritical))
      case SchedHeld => Last(log) == Some(Acquired(c, t, InSchedule))
      case Landing => Last(log).Some? && Last(log).value.Switched? && Last(log).value.core == c && Last(log).value.to == t
      case _ => Holder(log) != Some(c)
  }

  /** Boot code has interrupts masked and only enters critical sections that keep them so. */
  predicate BootOk(m: Machine, c: nat, mask: bool, stack: seq<Frame>)
  {
    c in m.booting ==>
      mask && (stack != [] ==> (stack[0].CritSpin? || stack[0].CritHeld? || stack[0].CritLeave? || stack[0].CritExit?) && stack[0].saved)
  }

  ghost predicate CoreOk(m: Machine, c: nat)
  {
    HasCurrent(m.sched, c) ==>
      && Task(m, c) in m.frames
      && |Stack(m, c)| <= 1
      && (Stack(m, c) != [] ==> c < |m.masks| && m.masks[c])
      && Phase(m.log, c, Task(m, c), Stack(m, c))
      && c < |m.masks| && BootOk(m, c, m.masks[c], Stack(m, c))
  }

  ghost predicate Waiting(m: Machine, t: TaskId)
  {
    t in m.frames && m.frames[t] == [Landing]
  }

  ghost predicate MachineOk(m: Machine)
    requires |m.masks| == |m.sched.current|
  {
    && Conserved(m.sched)
    && (forall t {:trigger Waiting(m, t)} | t in m.sched.queue :: Waiting(m, t))
    && (forall c: nat {:trigger CoreOk(m, c)} :: CoreOk(m, c))
    && LogOk(m.log)
    && (m.lock <==> Holder(m.log).Some?)
    && (Holder(m.log).Some? ==> HasCurrent(m.sched, Holder(m.log).value))
  }

  ghost predicate Good(m: Machine)
  {
    && |m.masks| == |m.sched.current| && |m.cpus| == |m.sched.current| && m.saved.Keys == m.sched.tasks
    && MachineOk(m)
  }

  // ---- Each step keeps it ----

  // Only the stepping core may enter or leave the history's end.
  predicate MayLog(log: seq<Event>, log': seq<Event>, c: nat)
  {
    || log' == log
    || ((Holder(log).None? || Holder(log) == Some(c)) && (Holder(log').None? || Holder(log') == Some(c)))
  }

  lemma OtherCore(m: Machine, m': Machine, c: nat, other: nat)
    requires Good(m) && other != c
    requires |m'.masks| == |m.masks| && (other < |m.masks| ==> m'.masks[other] == m.masks[other])
    requires m'.booting <= m.booting
    requires |m'.sched.current| == |m.sched.current| && (other < |m.masks| ==> m'.sched.current[other] == m.sched.current[other])
    requires HasCurrent(m.sched, other) ==> Task(m, other) in m'.frames && m'.frames[Task(m, other)] == Stack(m, other)
    requires MayLog(m.log, m'.log, c)
    ensures CoreOk(m', other)
  {
    assert CoreOk(m, other);
  }

  lemma LocalKeeps(m: Machine, c: nat, lock: bool, mask: bool, stack: seq<Frame>, log: seq<Event>)
    requires Good(m) && HasCurrent(m.sched, c)
    requires |stack| <= 1 && (stack != [] ==> mask) && Phase(log, c, Task(m, c), stack) && BootOk(m, c, mask, stack)
    requires LogOk(log) && (lock <==> Holder(log).Some?) && MayLog(m.log, log, c)
    ensures Good(Local(m, c, lock, mask, stack, log))
  {
    var m' := Local(m, c, lock, mask, stack, log);
    ConservedMeans(m.sched, c, c);
    forall other: nat
      ensures CoreOk(m', other)
    {
      if other != c {
        ConservedMeans(m.sched, c, other);
        assert CoreOk(m, other);
        OtherCore(m, m', c, other);
      }
    }
    forall t | t in m'.sched.queue
      ensures Waiting(m', t)
    {
      assert Waiting(m, t);
    }
  }

  lemma LogGrows(log: seq<Event>, e: Event)
    requires LogOk(log) && Follows(Last(log), e)
    ensures LogOk(log + [e]) && Last(log + [e]) == Some(e)
  {
    assert (log + [e])[..|log|] == log;
  }

  // Taking the lock, in either place.
  lemma ProceedSpin(m: Machine, c: nat, top: Frame)
    requires Good(m) && HasCurrent(m.sched, c) && Stack(m, c) == [top] && (top.CritSpin? || top.SchedSpin?)
    ensures Good(Proceed(m, c, [], top))
  {
    if !m.lock {
      assert CoreOk(m, c);
      var e := Acquired(c, Task(m, c), if top.CritSpin? then InCritical else InSchedule);
      LogGrows(m.log, e);
      var held := if top.CritSpin? then CritHeld(top.saved, top.op) else SchedHeld;
      LocalKeeps(m, c, true, m.masks[c], [] + [held], m.log + [e]);
    }
  }

  // Releasing the lock in a critical section.
  lemma ProceedLeave(m: Machine, c: nat, saved: bool)
    requires Good(m) && HasCurrent(m.sched, c) && Stack(m, c) == [CritLeave(saved)]
    ensures Good(Proceed(m, c, [], CritLeave(saved)))
  {
    assert CoreOk(m, c);
    var e := Released(c, Task(m, c), InCritical);
    LogGrows(m.log, e);
    LocalKeeps(m, c, false, m.masks[c], [] + [CritExit(saved)], m.log + [e]);
  }

  // Releasing the lock in `after_schedule`.
  lemma ProceedLanding(m: Machine, c: nat)
    requires Good(m) && HasCurrent(m.sched, c) && Stack(m, c) == [Landing]
    ensures Good(Proceed(m, c, [], Landing))
  {
    assert CoreOk(m, c);
    var e := Released(c, Task(m, c), InSchedule);
    LogGrows(m.log, e);
    LocalKeeps(m, c, false, m.masks[c], [] + [Unmask], m.log + [e]);
  }

  // The steps that leave the lock alone.
  lemma ProceedQuiet(m: Machine, c: nat, top: Frame)
    requires Good(m) && HasCurrent(m.sched, c) && Stack(m, c) == [top]
    requires top.CritExit? || top.Unmask? || (top.CritHeld? && top.op.Inspect?)
    ensures Good(Proceed(m, c, [], top))
  {
    assert CoreOk(m, c);
    if top.CritHeld? {
      LocalKeeps(m, c, m.lock, m.masks[c], [] + [CritLeave(top.saved)], m.log);
    } else {
      LocalKeeps(m, c, m.lock, if top.CritExit? then top.saved else false, [], m.log);
    }
  }

  lemma ProceedRegister(m: Machine, c: nat, saved: bool, id: TaskId, initial: C.Registers)
    requires Good(m) && HasCurrent(m.sched, c) && Stack(m, c) == [CritHeld(saved, Register(id, initial))] && id !in m.sched.tasks
    ensures Good(Proceed(m, c, [], CritHeld(saved, Register(id, initial))))
  {
    assert CoreOk(m, c);
    var m1 := Local(m, c, m.lock, m.masks[c], [CritLeave(saved)], m.log);
    LocalKeeps(m, c, m.lock, m.masks[c], [CritLeave(saved)], m.log);
    var m' := Proceed(m, c, [], CritHeld(saved, Register(id, initial)));
    AddKeepsConserved(m.sched, id);
    forall other: nat
      ensures CoreOk(m', other)
    {
      assert CoreOk(m1, other);
      if HasCurrent(m.sched, other) {
        ConservedMeans(m.sched, other, other);
      }
    }
    forall t | t in m'.sched.queue
      ensures Waiting(m', t)
    {
      assert t == id || Waiting(m1, t);
    }
  }

  lemma ProceedSwitch(m: Machine, c: nat)
    requires Good(m) && HasCurrent(m.sched, c) && Stack(m, c) == [SchedHeld]
    ensures Good(Proceed(m, c, [], SchedHeld))
  {
    assert CoreOk(m, c);
    var t, next := Task(m, c), Next(m.sched, c);
    var m' := Proceed(m, c, [], SchedHeld);
    LogGrows(m.log, Switched(c, t, next));
    ScheduleKeepsConserved(m.sched, c);
    ConservedMeans(m.sched, c, c);
    forall other: nat
      ensures CoreOk(m', other)
    {
      if other != c {
        ConservedMeans(m.sched, c, other);
        assert CoreOk(m, other);
        OtherCore(m, m', c, other);
      } else {
        assert next == t || Waiting(m, next);
      }
    }
    forall u | u in m'.sched.queue
      ensures Waiting(m', u)
    {
      assert u == t || Waiting(m, u);
    }
  }

  lemma LeaveBoot(m: Machine, c: nat)
    requires Good(m)
    ensures Good(m.(booting := m.booting - {c}))
  {
    var m' := m.(booting := m.booting - {c});
    forall other: nat
      ensures CoreOk(m', other)
    {
      assert CoreOk(m, other);
    }
    forall t | t in m'.sched.queue
      ensures Waiting(m', t)
    {
      assert Waiting(m, t);
    }
  }

  lemma ComputeKeeps(m: Machine, c: nat, registers: C.Registers)
    requires Good(m) && c < |m.cpus|
    ensures Good(m.(cpus := m.cpus[c := registers]))
  {
    var m' := m.(cpus := m.cpus[c := registers]);
    forall other: nat
      ensures CoreOk(m', other)
    {
      assert CoreOk(m, other);
    }
    forall t | t in m'.sched.queue
      ensures Waiting(m', t)
    {
      assert Waiting(m, t);
    }
  }

  lemma ActKeepsGood(m: Machine, a: Action)
    requires Good(m) && CanAct(m, a)
    ensures Good(Act(m, a))
  {
    var c := a.core;
    assert CoreOk(m, c);
    match a {
      case Irq(_) => LocalKeeps(m, c, m.lock, true, Stack(m, c) + [SchedSpin], m.log);
      case Trap(_) => LocalKeeps(m, c, m.lock, true, [], m.log);
      case Eret(_, mask) => LocalKeeps(m, c, m.lock, mask, [], m.log);
      case Compute(_, registers) => ComputeKeeps(m, c, registers);
      case CallSchedule(_) =>
        LeaveBoot(m, c);
        LocalKeeps(m.(booting := m.booting - {c}), c, m.lock, m.masks[c], [] + [SchedSpin], m.log);
      case CallCritical(_, op) => LocalKeeps(m, c, m.lock, true, [] + [CritSpin(m.masks[c], op)], m.log);
      case Go(_) =>
        var top := Stack(m, c)[0];
        assert Stack(m, c) == [top] && Stack(m, c)[..0] == [];
        if top.SchedHeld? {
          ProceedSwitch(m, c);
        } else if top.CritHeld? && top.op.Register? {
          ProceedRegister(m, c, top.saved, top.op.id, top.op.initial);
        } else if top.CritSpin? || top.SchedSpin? {
          ProceedSpin(m, c, top);
        } else if top.CritLeave? {
          ProceedLeave(m, c, top.saved);
        } else if top.Landing? {
          ProceedLanding(m, c);
        } else {
          ProceedQuiet(m, c, top);
        }
    }
  }

  // ---- Runs ----

  predicate CanRun(m: Machine, actions: seq<Action>)
    decreases |actions|, 0
  {
    |actions| == 0 || (CanRun(m, actions[..|actions| - 1]) && CanAct(Run(m, actions[..|actions| - 1]), actions[|actions| - 1]))
  }

  function Run(m: Machine, actions: seq<Action>): Machine
    requires CanRun(m, actions)
    decreases |actions|, 1
  {
    if |actions| == 0 then m else Act(Run(m, actions[..|actions| - 1]), actions[|actions| - 1])
  }

  /** The machine at boot: the lock is free and nobody is inside the scheduler; tasks that wait in the
      queue will begin in `after_schedule`; every core with a task is in its boot code. */
  ghost predicate Boot(m: Machine)
  {
    && |m.masks| == |m.sched.current| && |m.cpus| == |m.sched.current| && m.saved.Keys == m.sched.tasks
    && Conserved(m.sched) && !m.lock && m.log == []
    && (forall t | t in m.sched.tasks :: t in m.frames && m.frames[t] == if t in m.sched.queue then [Landing] else [])
    && (forall c: nat | HasCurrent(m.sched, c) :: c in m.booting)
  }

  /** Every core that has a task has its IRQ masked. */
  ghost predicate AllMasked(m: Machine)
  {
    forall c: nat | HasCurrent(m.sched, c) :: c < |m.masks| && m.masks[c]
  }

  lemma BootIsGood(m: Machine)
    requires Boot(m) && AllMasked(m)
    ensures Good(m)
  {
    forall c: nat
      ensures CoreOk(m, c)
    {
      if HasCurrent(m.sched, c) {
        ConservedMeans(m.sched, c, c);
      }
    }
    forall t | t in m.sched.queue
      ensures Waiting(m, t)
    {
      assert t in multiset(m.sched.queue) && t in multiset(m.sched.tasks);
    }
  }

  lemma {:induction false} RunKeepsGood(m: Machine, actions: seq<Action>)
    requires Good(m) && CanRun(m, actions)
    ensures Good(Run(m, actions))
    decreases |actions|
  {
    if |actions| > 0 {
      RunKeepsGood(m, actions[..|actions| - 1]);
      ActKeepsGood(Run(m, actions[..|actions| - 1]), actions[|actions| - 1]);
    }
  }

  predicate Spins(stack: seq<Frame>)
  {
    stack != [] && (stack[|stack| - 1].CritSpin? || stack[|stack| - 1].SchedSpin?)
  }

  /** A core that holds the scheduler's lock has its IRQ masked, no core waits for a lock that it holds
      itself, and no timer interrupt can hit a holder. */
  ghost predicate Disciplined(m: Machine, c: nat)
  {
    && (m.lock <==> Holder(m.log).Some?)
    && (Holder(m.log) == Some(c) ==> c < |m.masks| && m.masks[c] && !CanAct(m, Irq(c)))
    && (HasCurrent(m.sched, c) && Spins(Stack(m, c)) ==> Holder(m.log) != Some(c))
  }

  lemma GoodIsDisciplined(m: Machine, c: nat)
    requires Good(m)
    ensures Disciplined(m, c)
  {
    assert CoreOk(m, c);
  }

  /** In every run from a masked boot, every core is disciplined, the lock's history is made of complete
      blocks, and the queue and the running tasks stay exactly the registered tasks. */
  lemma LockHandoff(m: Machine, actions: seq<Action>, c: nat)
    requires Boot(m) && AllMasked(m) && CanRun(m, actions)
    ensures Disciplined(Run(m, actions), c) && Conserved(Run(m, actions).sched) && LogOk(Run(m, actions).log)
  {
    BootIsGood(m);
    RunKeepsGood(m, actions);
    GoodIsDisciplined(Run(m, actions), c);
  }

  /** Each acquisition in `schedule` is followed at once in the lock's history by a switch on the same core and
      a single release by the task switched to; each one in a critical section by its own release. */
  lemma {:induction false} AcquisitionsAreReleased(log: seq<Event>, i: nat)
    requires LogOk(log) && i < |log| && log[i].Acquired?
    ensures log[i].why == InCritical && i + 1 < |log| ==> log[i + 1] == Released(log[i].core, log[i].task, InCritical)
    ensures log[i].why == InSchedule && i + 1 < |log| ==>
              log[i + 1].Switched? && log[i + 1].core == log[i].core && log[i + 1].from == log[i].task
    ensures log[i].why == InSchedule && i + 2 < |log| ==>
              log[i + 2] == Released(log[i].core, log[i + 1].to, InSchedule)
    decreases |log|
  {
    var before := log[..|log| - 1];
    if i + 1 < |log| {
      AcquisitionsAreReleased(before, i);
      if i + 1 == |log| - 1 {
        assert Last(before) == Some(log[i]);
      } else if i + 2 == |log| - 1 {
        assert Last(before) == Some(log[i + 1]);
      }
    }
  }

  // ---- Without the mask ----

  /** No core can move on: the lock is held, core `c` holds it and spins on it, and every other core is outside
      or spins too. */
  ghost predicate Stuck(m: Machine, c: nat)
  {
    && m.lock && Holder(m.log) == Some(c)
    && HasCurrent(m.sched, c) && Spins(Stack(m, c))
    && forall other: nat {:trigger Stack(m, other)} | HasCurrent(m.sched, other) :: Stack(m, other) == [] || Spins(Stack(m, other))
  }

  lemma ActKeepsStuck(m: Machine, c: nat, a: Action)
    requires Stuck(m, c) && CanAct(m, a)
    ensures Stuck(Act(m, a), c)
  {
    var m' := Act(m, a);
    forall other: nat | HasCurrent(m'.sched, other)
      ensures Stack(m', other) == [] || Spins(Stack(m', other))
      ensures other == c ==> Spins(Stack(m', other))
    {
      assert Stack(m, other) == [] || Spins(Stack(m, other));
      assert Stack(m, a.core) == [] || Spins(Stack(m, a.core));
    }
  }

  lemma {:induction false} StuckForEver(m: Machine, c: nat, actions: seq<Action>)
    requires Stuck(m, c) && CanRun(m, actions)
    ensures Stuck(Run(m, actions), c)
    decreases |actions|
  {
    if |actions| > 0 {
      StuckForEver(m, c, actions[..|actions| - 1]);
      ActKeepsStuck(Run(m, actions[..|actions| - 1]), c, actions[|actions| - 1]);
    }
  }

  /** Without the mask at boot the discipline fails on every machine: the core takes the lock in `schedule`
      with interrupts open; a timer interrupt then leaves the machine stuck. */
  lemma UnmaskedBootSticks(m: Machine, c: nat) returns (held: Machine, stuck: Machine)
    requires Boot(m) && HasCurrent(m.sched, c) && !m.masks[c]
    ensures CanRun(m, [CallSchedule(c), Go(c)]) && held == Run(m, [CallSchedule(c), Go(c)])
    ensures Holder(held.log) == Some(c) && !Disciplined(held, c)
    ensures CanAct(held, Irq(c)) && stuck == Act(held, Irq(c))
    ensures Stuck(stuck, c)
  {
    ConservedMeans(m.sched, c, c);
    var m1 := Act(m, CallSchedule(c));
    assert Stack(m1, c) == [SchedSpin];
    held := Act(m1, Go(c));
    assert [CallSchedule(c), Go(c)][..1] == [CallSchedule(c)];
    assert [CallSchedule(c)][..0] == [] && Run(m, [CallSchedule(c)]) == m1;
    stuck := Act(held, Irq(c));
    forall other: nat | HasCurrent(stuck.sched, other)
      ensures Stack(stuck, other) == [] || Spins(Stack(stuck, other))
    {
      ConservedMeans(m.sched, other, c);
    }
  }

  /** From an open mask the machine can be led where the lock stays held and the core spins on it, whatever any
      core does afterwards. */
  lemma UnmaskedBootDeadlocks(m: Machine, c: nat, actions: seq<Action>) returns (stuck: Machine)
    requires Boot(m) && HasCurrent(m.sched, c) && !m.masks[c]
    ensures CanRun(m, [CallSchedule(c), Go(c)]) && CanAct(Run(m, [CallSchedule(c), Go(c)]), Irq(c))
    ensures stuck == Act(Run(m, [CallSchedule(c), Go(c)]), Irq(c))
    ensures CanRun(stuck, actions) ==> Stuck(Run(stuck, actions), c)
  {
    var held, s := UnmaskedBootSticks(m, c);
    stuck := s;
    if CanRun(stuck, actions) {
      StuckForEver(stuck, c, actions);
    }
  }

  /** Every run from a boot is disciplined on every core exactly when each core with a task boots masked. */
  lemma DisciplineExactly(m: Machine)
    requires Boot(m)
    ensures AllMasked(m) <==> forall actions, c: nat | CanRun(m, actions) :: Disciplined(Run(m, actions), c)
  {
    if AllMasked(m) {
      forall actions, c: nat | CanRun(m, actions)
        ensures Disciplined(Run(m, actions), c)
      {
        LockHandoff(m, actions, c);
      }
    } else {
      var c: nat :| HasCurrent(m.sched, c) && !m.masks[c];
      var held, stuck := UnmaskedBootSticks(m, c);
      assert !Disciplined(Run(m, [CallSchedule(c), Go(c)]), c);
    }
  }

  // ---- Registers ----

  /** The machine without lock, masks and frames. */
  function Project(m: Machine): C.Machine
  {
    C.Machine(m.sched, m.cpus, m.saved)
  }

  /** What a step does to registers and tasks: nothing, or one event. */
  function EventOf(m: Machine, a: Action): seq<C.Event>
    requires CanAct(m, a)
  {
    if a.Compute? then [C.Compute(a.core, a.registers)]
    else if !a.Go? then []
    else
      var top := Stack(m, a.core)[|Stack(m, a.core)| - 1];
      if top.SchedHeld? then [C.Event.Call(a.core)]
      else if top.CritHeld? && top.op.Register? then [C.Event.Add(top.op.id, top.op.initial)]
      else []
  }

  function Trace(m: Machine, actions: seq<Action>): seq<C.Event>
    requires CanRun(m, actions)
    decreases |actions|
  {
    if |actions| == 0 then []
    else Trace(m, actions[..|actions| - 1]) + EventOf(Run(m, actions[..|actions| - 1]), actions[|actions| - 1])
  }

  lemma SwitchProjects(m: Machine, c: nat, below: seq<Frame>)
    requires Good(m) && HasCurrent(m.sched, c)
    ensures C.MachineOk(Project(m)) && C.CanStep(Project(m), C.Event.Call(c))
    ensures C.Step(Project(m), C.Event.Call(c)) == Project(Proceed(m, c, below, SchedHeld))
  {
    ScheduleKeepsConserved(m.sched, c);
  }

  lemma RegisterProjects(m: Machine, c: nat, below: seq<Frame>, top: Frame)
    requires Good(m) && HasCurrent(m.sched, c) && top.CritHeld? && top.op.Register? && top.op.id !in m.sched.tasks
    ensures C.MachineOk(Project(m)) && C.CanStep(Project(m), C.Event.Add(top.op.id, top.op.initial))
    ensures C.Step(Project(m), C.Event.Add(top.op.id, top.op.initial)) == Project(Proceed(m, c, below, top))
  {
  }

  lemma QuietProjects(m: Machine, c: nat, below: seq<Frame>, top: Frame)
    requires HasCurrent(m.sched, c) && c < |m.masks| && !top.SchedHeld? && !(top.CritHeld? && top.op.Register?)
    ensures Project(Proceed(m, c, below, top)) == Project(m)
  {
  }

  lemma StepProjects(m: Machine, a: Action)
    requires Good(m) && CanAct(m, a)
    ensures C.MachineOk(Project(m))
    ensures var events := EventOf(m, a);
            if events == [] then Project(Act(m, a)) == Project(m)
            else |events| == 1 && C.CanStep(Project(m), events[0]) && C.Step(Project(m), events[0]) == Project(Act(m, a))
  {
    if a.Go? {
      var stack := Stack(m, a.core);
      var below, top := stack[..|stack| - 1], stack[|stack| - 1];
      if top.SchedHeld? {
        SwitchProjects(m, a.core, below);
      } else if top.CritHeld? && top.op.Register? {
        RegisterProjects(m, a.core, below, top);
      } else {
        QuietProjects(m, a.core, below, top);
      }
    }
  }

  /** Every interleaved run is, in its registers and tasks, a run of whole switches. */
  lemma {:induction false} RunProjects(m: Machine, actions: seq<Action>)
    requires Good(m) && CanRun(m, actions)
    ensures C.MachineOk(Project(m)) && C.CanRun(Project(m), Trace(m, actions))
    ensures C.Run(Project(m), Trace(m, actions)) == Project(Run(m, actions))
    decreases |actions|
  {
    if |actions| > 0 {
      var front := actions[..|actions| - 1];
      RunProjects(m, front);
      RunKeepsGood(m, front);
      StepProjects(Run(m, front), actions[|actions| - 1]);
      var trace, events := Trace(m, front), EventOf(Run(m, front), actions[|actions| - 1]);
      if events == [] {
        assert trace + events == trace;
      } else {
        assert (trace + events)[..|trace + events| - 1] == trace;
      }
    }
  }

  /** In every interleaved run: a switch leaves the core with the registers that its new task had at its last
      switch-out, or with its initial context. */
  lemma InterleavedContextPreserved(m: Machine, actions: seq<Action>, c: nat)
    requires Boot(m) && AllMasked(m) && |actions| > 0 && CanRun(m, actions) && actions[|actions| - 1] == Go(c)
    requires EventOf(Run(m, actions[..|actions| - 1]), Go(c)) == [C.Event.Call(c)]
    ensures var m' := Run(m, actions);
            && C.MachineOk(Project(m)) && C.CanRun(Project(m), Trace(m, actions))
            && HasCurrent(m'.sched, c) && c < |m'.cpus|
            && C.LastContext(Project(m), Trace(m, actions), Task(m', c)) == Some(m'.cpus[c])
  {
    BootIsGood(m);
    RunProjects(m, actions);
    C.ContextPreserved(Project(m), Trace(m, actions), c);
  }

  // ---- Calls without others in between ----

  lemma RunSnoc(m: Machine, actions: seq<Action>, a: Action)
    requires CanRun(m, actions) && CanAct(Run(m, actions), a)
    ensures CanRun(m, actions + [a]) && Run(m, actions + [a]) == Act(Run(m, actions), a)
  {
    assert (actions + [a])[..|actions|] == actions;
  }

  /** Other cores change neither the mask nor the frames of a core. */
  lemma OtherCoresKeepOut(m: Machine, a: Action, c: nat)
    requires Good(m) && CanAct(m, a) && HasCurrent(m.sched, c) && a.core != c
    ensures var m' := Act(m, a);
            && HasCurrent(m'.sched, c) && Task(m', c) == Task(m, c)
            && Stack(m', c) == Stack(m, c) && c < |m.masks| == |m'.masks| && m'.masks[c] == m.masks[c]
  {
    DistinctTasks(m, c, a.core);
    if a.Go? {
      var stack := Stack(m, a.core);
      ProceedKeepsOut(m, a.core, stack[..|stack| - 1], stack[|stack| - 1], c);
    } else {
      CallKeepsOut(m, a, c);
    }
  }

  lemma CallKeepsOut(m: Machine, a: Action, other: nat)
    requires CanAct(m, a) && !a.Go? && HasCurrent(m.sched, other) && other < |m.masks| && a.core != other && Task(m, other) != Task(m, a.core)
    ensures var m' := Act(m, a);
            m'.sched == m.sched && Stack(m', other) == Stack(m, other) && |m'.masks| == |m.masks| && m'.masks[other] == m.masks[other]
  {
  }

  lemma DistinctTasks(m: Machine, a: nat, b: nat)
    requires Good(m) && HasCurrent(m.sched, a) && HasCurrent(m.sched, b) && a != b
    ensures Task(m, a) != Task(m, b) && a < |m.masks| && b < |m.masks|
  {
    ConservedMeans(m.sched, a, b);
  }

  lemma ProceedKeepsOut(m: Machine, c: nat, below: seq<Frame>, top: Frame, other: nat)
    requires Good(m) && HasCurrent(m.sched, c) && HasCurrent(m.sched, other) && other != c && Task(m, other) != Task(m, c)
    requires top.CritHeld? && top.op.Register? ==> top.op.id !in m.sched.tasks
    ensures var m' := Proceed(m, c, below, top);
            && HasCurrent(m'.sched, other) && Task(m', other) == Task(m, other) && Stack(m', other) == Stack(m, other)
            && |m'.masks| == |m.masks| && m'.masks[other] == m.masks[other]
  {
    ConservedMeans(m.sched, other, c);
    assert CoreOk(m, other);
    if top.SchedHeld? {
      assert Schedule(m.sched, c).current[other] == m.sched.current[other];
    }
  }

  // The next step of a task with one frame, and what a local step leaves.
  lemma GoOnTop(m: Machine, c: nat, top: Frame) returns (m1: Machine)
    requires HasCurrent(m.sched, c) && c < |m.masks| && Stack(m, c) == [top]
    requires top.CritHeld? && top.op.Register? ==> top.op.id !in m.sched.tasks
    ensures CanAct(m, Go(c)) && m1 == Act(m, Go(c)) && m1 == Proceed(m, c, [], top)
  {
    assert Stack(m, c)[..0] == [];
    m1 := Act(m, Go(c));
  }

  lemma LocalLeaves(m: Machine, c: nat, lock: bool, mask: bool, stack: seq<Frame>, log: seq<Event>) returns (m1: Machine)
    requires HasCurrent(m.sched, c) && c < |m.masks|
    ensures m1 == Local(m, c, lock, mask, stack, log)
    ensures m1.sched == m.sched && Task(m1, c) == Task(m, c) && Stack(m1, c) == stack && Project(m1) == Project(m)
    ensures m1.lock == lock && m1.masks == m.masks[c := mask] && m1.log == log && |m1.masks| == |m.masks|
  {
    m1 := Local(m, c, lock, mask, stack, log);
  }

  // `after_schedule`: the release and the open mask.
  lemma FinishLanding(m: Machine, c: nat) returns (m1: Machine, m2: Machine)
    requires HasCurrent(m.sched, c) && c < |m.masks| && Stack(m, c) == [Landing]
    ensures CanAct(m, Go(c)) && m1 == Act(m, Go(c)) && CanAct(m1, Go(c)) && m2 == Act(m1, Go(c))
    ensures m2.sched == m.sched && !m2.lock && m2.masks == m.masks[c := false] && Stack(m2, c) == []
    ensures Project(m2) == Project(m) && m2.log == m.log + [Released(c, Task(m, c), InSchedule)]
  {
    m1 := GoOnTop(m, c, Landing);
    var same1 := LocalLeaves(m, c, false, m.masks[c], [] + [Unmask], m.log + [Released(c, Task(m, c), InSchedule)]);
    assert [] + [Unmask] == [Unmask];
    m2 := GoOnTop(m1, c, Unmask);
    var same2 := LocalLeaves(m1, c, m1.lock, false, [], m1.log);
  }

  // The switch leaves the incoming task before its release.
  lemma SwitchStep(m: Machine, c: nat) returns (m1: Machine)
    requires Good(m) && HasCurrent(m.sched, c) && Stack(m, c) == [SchedHeld]
    ensures CanAct(m, Go(c)) && m1 == Act(m, Go(c))
    ensures m1.sched == Schedule(m.sched, c) && m1.masks == m.masks && Stack(m1, c) == [Landing]
    ensures C.MachineOk(Project(m)) && C.CanStep(Project(m), C.Event.Call(c)) && Project(m1) == C.Step(Project(m), C.Event.Call(c))
    ensures m1.log == m.log + [Switched(c, Task(m, c), Next(m.sched, c))]
  {
    m1 := GoOnTop(m, c, SchedHeld);
    SwitchProjects(m, c, []);
    ProceedSwitch(m, c);
    assert CoreOk(m1, c);
  }

  lemma TakeInSchedule(m: Machine, c: nat) returns (m1: Machine)
    requires Good(m) && HasCurrent(m.sched, c) && Stack(m, c) == [SchedSpin] && !m.lock
    ensures CanAct(m, Go(c)) && m1 == Act(m, Go(c)) && Good(m1)
    ensures m1.sched == m.sched && m1.masks == m.masks && Stack(m1, c) == [SchedHeld] && Project(m1) == Project(m)
    ensures m1.log == m.log + [Acquired(c, Task(m, c), InSchedule)]
  {
    m1 := GoOnTop(m, c, SchedSpin);
    var same := LocalLeaves(m, c, true, m.masks[c], [] + [SchedHeld], m.log + [Acquired(c, Task(m, c), InSchedule)]);
    ProceedSpin(m, c, SchedSpin);
  }

  /** With the lock free, `schedule` on its own takes it, switches, releases it in the incoming task and opens the
      mask: four steps that are the scheduler's call on values. */
  lemma UninterruptedSchedule(m: Machine, c: nat) returns (m': Machine)
    requires Good(m) && HasCurrent(m.sched, c) && Stack(m, c) == [SchedSpin] && !m.lock
    ensures CanRun(m, [Go(c), Go(c), Go(c), Go(c)]) && m' == Run(m, [Go(c), Go(c), Go(c), Go(c)])
    ensures m'.sched == Schedule(m.sched, c) && !m'.lock && m'.masks == m.masks[c := false] && Stack(m', c) == []
    ensures C.MachineOk(Project(m)) && C.CanStep(Project(m), C.Event.Call(c)) && Project(m') == C.Step(Project(m), C.Event.Call(c))
    ensures var t, next := Task(m, c), Next(m.sched, c);
            m'.log == m.log + [Acquired(c, t, InSchedule), Switched(c, t, next), Released(c, next, InSchedule)]
  {
    var m1 := TakeInSchedule(m, c);
    var m2 := SwitchStep(m1, c);
    var m3, m4 := FinishLanding(m2, c);
    FourSteps(m, m1, m2, m3, m4, Go(c));
    m' := m4;
  }

  lemma FourSteps(m: Machine, m1: Machine, m2: Machine, m3: Machine, m4: Machine, a: Action)
    requires CanAct(m, a) && m1 == Act(m, a) && CanAct(m1, a) && m2 == Act(m1, a)
    requires CanAct(m2, a) && m3 == Act(m2, a) && CanAct(m3, a) && m4 == Act(m3, a)
    ensures CanRun(m, [a, a, a, a]) && Run(m, [a, a, a, a]) == m4
  {
    assert [] + [a] == [a] && [a] + [a] == [a, a] && [a, a] + [a] == [a, a, a] && [a, a, a] + [a] == [a, a, a, a];
    RunSnoc(m, [], a);
    assert Run(m, [a]) == m1;
    RunSnoc(m, [a], a);
    assert Run(m, [a, a]) == m2;
    RunSnoc(m, [a, a], a);
    assert Run(m, [a, a, a]) == m3;
    RunSnoc(m, [a, a, a], a);
  }

  /** A timer interrupt outside the scheduler masks the core and stands before the lock in `schedule`; so does boot code
      that calls `schedule`, with its mask as it is. Other exceptions mask, and a return restores the mask it is given. */
  lemma Entries(m: Machine, c: nat, mask: bool)
    requires HasCurrent(m.sched, c) && c < |m.masks| && Stack(m, c) == []
    ensures CanAct(m, Irq(c)) <==> !m.masks[c]
    ensures CanAct(m, Irq(c)) ==> Stack(Act(m, Irq(c)), c) == [SchedSpin] && Act(m, Irq(c)).masks == m.masks[c := true]
    ensures CanAct(m, CallSchedule(c)) ==>
              Stack(Act(m, CallSchedule(c)), c) == [SchedSpin] && Act(m, CallSchedule(c)).masks == m.masks
    ensures CanAct(m, Trap(c)) ==> Stack(Act(m, Trap(c)), c) == [] && Act(m, Trap(c)).masks == m.masks[c := true]
    ensures CanAct(m, Eret(c, mask)) ==> Stack(Act(m, Eret(c, mask)), c) == [] && Act(m, Eret(c, mask)).masks == m.masks[c := mask]
  {
  }

  lemma EnterCritical(m: Machine, c: nat, op: Op) returns (m1: Machine)
    requires HasCurrent(m.sched, c) && c < |m.masks| && Stack(m, c) == []
    ensures CanAct(m, CallCritical(c, op)) && m1 == Act(m, CallCritical(c, op))
    ensures m1.sched == m.sched && m1.lock == m.lock && m1.log == m.log && m1.masks == m.masks[c := true]
    ensures Stack(m1, c) == [CritSpin(m.masks[c], op)]
  {
    m1 := LocalLeaves(m, c, m.lock, true, [] + [CritSpin(m.masks[c], op)], m.log);
  }

  // The four steps of a critical section, from the lock to the restored mask.
  lemma CriticalSteps(m: Machine, c: nat, saved: bool, op: Op) returns (m1: Machine, m2: Machine, m3: Machine, m4: Machine)
    requires HasCurrent(m.sched, c) && c < |m.masks| && Stack(m, c) == [CritSpin(saved, op)] && !m.lock
    requires op.Register? ==> op.id !in m.sched.tasks && op.id != Task(m, c)
    ensures CanAct(m, Go(c)) && m1 == Act(m, Go(c)) && CanAct(m1, Go(c)) && m2 == Act(m1, Go(c))
    ensures CanAct(m2, Go(c)) && m3 == Act(m2, Go(c)) && CanAct(m3, Go(c)) && m4 == Act(m3, Go(c))
    ensures !m4.lock && m4.masks == m.masks[c := saved] && HasCurrent(m4.sched, c) && Stack(m4, c) == []
    ensures m4.sched == if op.Register? then AddTask(m.sched, op.id) else m.sched
    ensures m4.log == m.log + [Acquired(c, Task(m, c), InCritical), Released(c, Task(m, c), InCritical)]
  {
    m1 := TakeInCritical(m, c, saved, op);
    m2 := WorkInCritical(m1, c, saved, op);
    m3, m4 := LeaveCritical(m2, c, saved);
  }

  lemma TakeInCritical(m: Machine, c: nat, saved: bool, op: Op) returns (m1: Machine)
    requires HasCurrent(m.sched, c) && c < |m.masks| && Stack(m, c) == [CritSpin(saved, op)] && !m.lock
    ensures CanAct(m, Go(c)) && m1 == Act(m, Go(c))
    ensures m1.sched == m.sched && m1.masks == m.masks && Stack(m1, c) == [CritHeld(saved, op)]
    ensures m1.log == m.log + [Acquired(c, Task(m, c), InCritical)]
  {
    m1 := GoOnTop(m, c, CritSpin(saved, op));
    var same1 := LocalLeaves(m, c, true, m.masks[c], [] + [CritHeld(saved, op)], m.log + [Acquired(c, Task(m, c), InCritical)]);
  }

  lemma WorkInCritical(m: Machine, c: nat, saved: bool, op: Op) returns (m1: Machine)
    requires HasCurrent(m.sched, c) && c < |m.masks| && Stack(m, c) == [CritHeld(saved, op)]
    requires op.Register? ==> op.id !in m.sched.tasks && op.id != Task(m, c)
    ensures CanAct(m, Go(c)) && m1 == Act(m, Go(c))
    ensures m1.sched == if op.Register? then AddTask(m.sched, op.id) else m.sched
    ensures m1.masks == m.masks && HasCurrent(m1.sched, c) && Task(m1, c) == Task(m, c) && Stack(m1, c) == [CritLeave(saved)] && m1.log == m.log
  {
    m1 := GoOnTop(m, c, CritHeld(saved, op));
    var same := LocalLeaves(m, c, m.lock, m.masks[c], [] + [CritLeave(saved)], m.log);
    assert [] + [CritLeave(saved)] == [CritLeave(saved)];
  }

  lemma LeaveCritical(m: Machine, c: nat, saved: bool) returns (m1: Machine, m2: Machine)
    requires HasCurrent(m.sched, c) && c < |m.masks| && Stack(m, c) == [CritLeave(saved)]
    ensures CanAct(m, Go(c)) && m1 == Act(m, Go(c)) && CanAct(m1, Go(c)) && m2 == Act(m1, Go(c))
    ensures !m2.lock && m2.sched == m.sched && m2.masks == m.masks[c := saved] && Stack(m2, c) == []
    ensures m2.log == m.log + [Released(c, Task(m, c), InCritical)]
  {
    m1 := GoOnTop(m, c, CritLeave(saved));
    var same1 := LocalLeaves(m, c, false, m.masks[c], [] + [CritExit(saved)], m.log + [Released(c, Task(m, c), InCritical)]);
    assert [] + [CritExit(saved)] == [CritExit(saved)];
    m2 := GoOnTop(m1, c, CritExit(saved));
    var same2 := LocalLeaves(m1, c, m1.lock, saved, [], m1.log);
  }

  /** With the lock free, a critical section on its own takes and releases it, does its work, and leaves the mask as it
      was on entry. */
  lemma UninterruptedCritical(m: Machine, c: nat, op: Op) returns (begun: Machine, m': Machine)
    requires Good(m) && HasCurrent(m.sched, c) && Stack(m, c) == [] && !m.lock && (op.Register? ==> op.id !in m.sched.tasks)
    ensures CanAct(m, CallCritical(c, op)) && begun == Act(m, CallCritical(c, op))
    ensures CanRun(begun, [Go(c), Go(c), Go(c), Go(c)]) && m' == Run(begun, [Go(c), Go(c), Go(c), Go(c)])
    ensures !m'.lock && m'.masks == m.masks && HasCurrent(m'.sched, c) && Stack(m', c) == []
    ensures m'.sched == if op.Register? then AddTask(m.sched, op.id) else m.sched
    ensures m'.log == m.log + [Acquired(c, Task(m, c), InCritical), Released(c, Task(m, c), InCritical)]
  {
    ConservedMeans(m.sched, c, c);
    begun := EnterCritical(m, c, op);
    var m1, m2, m3, m4 := CriticalSteps(begun, c, m.masks[c], op);
    FourSteps(begun, m1, m2, m3, m4, Go(c));
    m' := m4;
    assert m.masks[c := true][c := m.masks[c]] == m.masks;
  }
}
