/** One-time initialization (kernel/src/sync/lock.rs, kernel/src/sync/once.rs, kernel/src/sync/once_lock.rs): any number of
    threads in `get`, `set` and `get_or_init` on one cell, as interleaved steps. */
module OnceLock {
  import opened Wrappers

  type ThreadId = nat
  type Value = nat

  /** Where a thread is. `start` is where its call began in the history, `own` the value its closure would produce. */
  datatype Pc =
    | Idle
    | GetSpin(start: nat)                                 // `get`: waiting for the lock of the `Once`
    | GetIn(start: nat)                                   // holds the lock, reads `completed`
    | GetOut(start: nat, completed: bool, looked: nat)    // before `unlock`
    | GetRead(start: nat, completed: bool, looked: nat)   // reads the data if it saw `completed`
    | InitSpin(start: nat, own: Value)                    // `get_or_init` or `set`: waiting for the lock
    | InitIn(start: nat, own: Value)                      // holds the lock, tests `completed`
    | InitRun(start: nat, own: Value)                     // runs the closure and writes the data
    | InitMark(start: nat, own: Value)                    // sets `completed`
    | InitOut(start: nat, own: Value, ran: bool)          // before `unlock`
    | InitRead(start: nat, own: Value, ran: bool)         // reads the data

  /** The history: calls begin and return, `get` looks at `completed`, closures run, initialization completes.
      `set` returns `Ok` exactly if its closure ran. */
  datatype Event =
    | Started(thread: ThreadId, own: Option<Value>)       // no `own` value: a `get`
    | Looked(thread: ThreadId)
    | Ran(thread: ThreadId, value: Value)
    | Completed(thread: ThreadId)
    | Returned(thread: ThreadId, result: Option<Value>, ran: bool, start: nat)

  /** `lock` names the thread whose `compare_exchange` succeeded; the flag itself is `lock.Some?`. */
  datatype Cell = Cell(
    lock: Option<ThreadId>, completed: bool, data: Option<Value>, threads: map<ThreadId, Pc>, log: seq<Event>)

  datatype Action = Get(thread: ThreadId) | Init(thread: ThreadId, own: Value) | Go(thread: ThreadId)

  const NEW: Cell := Cell(None, false, None, map[], [])

  function PcOf(s: Cell, t: ThreadId): Pc
  {
    if t in s.threads then s.threads[t] else Idle
  }

  predicate CanAct(s: Cell, a: Action)
  {
    (a.Go? && !PcOf(s, a.thread).Idle?) || (!a.Go? && PcOf(s, a.thread).Idle?)
  }

  /** `t` moves to `pc`. */
  function To(s: Cell, t: ThreadId, pc: Pc): Cell
  {
    s.(threads := s.threads[t := pc])
  }

  /** `t` moves to `pc` and leaves an event. */
  function Note(s: Cell, t: ThreadId, pc: Pc, e: Event): Cell
  {
    To(s.(log := s.log + [e]), t, pc)
  }

  function Act(s: Cell, a: Action): Cell
    requires CanAct(s, a)
  {
    var t := a.thread;
    match a
    case Get(_) => Note(s, t, GetSpin(|s.log|), Started(t, None))
    case Init(_, own) => Note(s, t, InitSpin(|s.log|, own), Started(t, Some(own)))
    case Go(_) =>
      match PcOf(s, t)
      case Idle => s
      case GetSpin(start) => if s.lock.Some? then s else To(s.(lock := Some(t)), t, GetIn(start))
      case GetIn(start) => Note(s, t, GetOut(start, s.completed, |s.log|), Looked(t))
      case GetOut(start, completed, looked) => To(s.(lock := None), t, GetRead(start, completed, looked))
      case GetRead(start, completed, _) =>
        Note(s, t, Idle, Returned(t, if completed then s.data else None, false, start))
      case InitSpin(start, own) => if s.lock.Some? then s else To(s.(lock := Some(t)), t, InitIn(start, own))
      case InitIn(start, own) => To(s, t, if s.completed then InitOut(start, own, false) else InitRun(start, own))
      case InitRun(start, own) => Note(s.(data := Some(own)), t, InitMark(start, own), Ran(t, own))
      case InitMark(start, own) => Note(s.(completed := true), t, InitOut(start, own, true), Completed(t))
      case InitOut(start, own, ran) => To(s.(lock := None), t, InitRead(start, own, ran))
      case InitRead(start, _, ran) => Note(s, t, Idle, Returned(t, s.data, ran, start))
  }

  // ---- The invariant: the cell ----

  predicate Holds(pc: Pc)
  {
    pc.GetIn? || pc.GetOut? || pc.InitIn? || pc.InitRun? || pc.InitMark? || pc.InitOut?
  }

  /** The thread's closure has run in its current call. */
  predicate Winning(pc: Pc)
  {
    pc.InitMark? || ((pc.InitOut? || pc.InitRead?) && pc.ran)
  }

  /** What a thread's position says about the cell. */
  ghost predicate ThreadOk(s: Cell, t: ThreadId)
  {
    var pc := PcOf(s, t);
    && (Holds(pc) <==> s.lock == Some(t))
    && ((pc.GetOut? || pc.GetRead?) && pc.completed ==> s.completed)
    && (pc.InitRun? ==> !s.completed)
    && (pc.InitMark? ==> !s.completed)
    && (pc.InitOut? || pc.InitRead? ==> s.completed)
    && (Winning(pc) ==> s.data == Some(pc.own) && Wins(s.log) == 0)
  }

  function Runs(log: seq<Event>): nat
  {
    if |log| == 0 then 0 else Runs(log[..|log| - 1]) + if log[|log| - 1].Ran? then 1 else 0
  }

  predicate Won(e: Event) { e.Returned? && e.ran }

  function Wins(log: seq<Event>): nat
  {
    if |log| == 0 then 0 else Wins(log[..|log| - 1]) + if Won(log[|log| - 1]) then 1 else 0
  }

  /** A closure that ran and a value that was read agree with `data`. */
  predicate Agrees(e: Event, data: Option<Value>)
  {
    match e
    case Ran(_, v) => data == Some(v)
    case Returned(_, v, ran, _) => (v.Some? ==> v == data) && (ran ==> v.Some?)
    case _ => true
  }

  ghost predicate LogAgrees(log: seq<Event>, data: Option<Value>)
  {
    forall i | 0 <= i < |log| :: Agrees(log[i], data)
  }

  predicate ReadsValue(e: Event) { e.Returned? && e.result.Some? }

  /** Nothing is read before the closure has run. */
  ghost predicate Ordered(log: seq<Event>)
  {
    forall i, j | 0 <= i < j < |log| && ReadsValue(log[i]) :: !log[j].Ran?
  }

  ghost predicate OneWinner(s: Cell, t: ThreadId, u: ThreadId)
  {
    Winning(PcOf(s, t)) && Winning(PcOf(s, u)) ==> t == u
  }

  ghost predicate CellOk(s: Cell)
  {
    && (forall t: ThreadId {:trigger ThreadOk(s, t)} :: ThreadOk(s, t))
    && (forall t, u {:trigger OneWinner(s, t, u)} :: OneWinner(s, t, u))
    && (s.completed ==> s.data.Some?)
    && (s.data.Some? && !s.completed ==> s.lock.Some? && PcOf(s, s.lock.value).InitMark?)
    && Runs(s.log) == (if s.data.Some? then 1 else 0)
    && Wins(s.log) <= Runs(s.log)
    && LogAgrees(s.log, s.data)
    && Ordered(s.log)
  }

  // ---- The invariant: calls in the history ----

  /** Initialization completed before index `n`. */
  predicate DoneBy(log: seq<Event>, n: nat)
  {
    exists i :: 0 <= i < n && i < |log| && log[i].Completed?
  }

  /** The thread's closure ran strictly between the two indices. */
  predicate RanBetween(log: seq<Event>, t: ThreadId, from: nat, to: nat)
  {
    exists i :: from < i < to && i < |log| && log[i].Ran? && log[i].thread == t
  }

  /** The thread begins and ends no call strictly between the two indices. */
  predicate OneCall(log: seq<Event>, t: ThreadId, from: nat, to: nat)
  {
    forall i | from < i < to && i < |log| && log[i].thread == t :: !log[i].Started? && !log[i].Returned?
  }

  predicate LookedAt(log: seq<Event>, t: ThreadId, start: nat, l: nat)
  {
    start < l < |log| && log[l] == Looked(t)
  }

  /** What a call in progress has left in the history. */
  ghost predicate CallOk(log: seq<Event>, t: ThreadId, pc: Pc)
  {
    !pc.Idle? ==>
      && pc.start < |log| && log[pc.start].Started? && log[pc.start].thread == t && OneCall(log, t, pc.start, |log|)
      && (if pc.GetSpin? || pc.GetIn? || pc.GetOut? || pc.GetRead? then
            && log[pc.start].own.None?
            && (pc.GetOut? || pc.GetRead? ==>
                  LookedAt(log, t, pc.start, pc.looked) && (pc.completed <==> DoneBy(log, pc.looked)))
          else
            && log[pc.start].own == Some(pc.own)
            && (Winning(pc) <==> RanBetween(log, t, pc.start, |log|)))
  }

  /** A finished call: a `get` finds a value exactly if initialization had completed when it looked; every other
      call finds one, and says that its closure ran exactly if it did; then the value is its own. */
  ghost predicate ReturnOk(log: seq<Event>, k: nat)
    requires k < |log|
  {
    var e := log[k];
    e.Returned? ==>
      && e.start < k && log[e.start].Started? && log[e.start].thread == e.thread && OneCall(log, e.thread, e.start, k)
      && (e.result.Some? ==> DoneBy(log, k))
      && (if log[e.start].own.None? then
            && !e.ran
            && exists l: nat :: l < k && LookedAt(log, e.thread, e.start, l) && (e.result.Some? <==> DoneBy(log, l))
          else
            && e.result.Some?
            && (e.ran <==> RanBetween(log, e.thread, e.start, k))
            && (e.ran ==> e.result == log[e.start].own))
  }

  ghost predicate HistoryOk(s: Cell)
  {
    && (forall t: ThreadId {:trigger PcOf(s, t)} :: CallOk(s.log, t, PcOf(s, t)))
    && (forall k: nat {:trigger ReturnOk(s.log, k)} | k < |s.log| :: ReturnOk(s.log, k))
    && (s.completed <==> DoneBy(s.log, |s.log|))
  }

  // ---- Each step keeps the cell ----

  lemma LogGrows(log: seq<Event>, e: Event, data: Option<Value>)
    requires LogAgrees(log, data) && Agrees(e, data) && Ordered(log)
    requires e.Ran? ==> forall i | 0 <= i < |log| :: !ReadsValue(log[i])
    ensures LogAgrees(log + [e], data) && Ordered(log + [e])
    ensures Runs(log + [e]) == Runs(log) + if e.Ran? then 1 else 0
    ensures Wins(log + [e]) == Wins(log) + if Won(e) then 1 else 0
  {
    assert (log + [e])[..|log|] == log;
  }

  // A step of `t` that moves only `t` and its lock.
  lemma MoveKeeps(s: Cell, t: ThreadId, lock: Option<ThreadId>, pc: Pc)
    requires CellOk(s)
    requires lock == s.lock || (s.lock.None? && lock == Some(t)) || (s.lock == Some(t) && lock.None?)
    requires s.lock == Some(t) ==> !PcOf(s, t).InitMark?
    requires ThreadOk(To(s.(lock := lock), t, pc), t)
    requires Winning(pc) ==> Winning(PcOf(s, t))
    ensures CellOk(To(s.(lock := lock), t, pc))
  {
    var s' := To(s.(lock := lock), t, pc);
    forall u: ThreadId
      ensures ThreadOk(s', u)
    {
      assert ThreadOk(s, u);
    }
    forall u: ThreadId, v: ThreadId
      ensures OneWinner(s', u, v)
    {
      assert OneWinner(s, u, v) && ThreadOk(s, u) && ThreadOk(s, v);
    }
  }

  // An event that neither runs nor returns.
  lemma QuietKeeps(s: Cell, e: Event)
    requires CellOk(s) && (e.Started? || e.Looked? || e.Completed?)
    ensures CellOk(s.(log := s.log + [e]))
  {
    LogGrows(s.log, e, s.data);
    var s' := s.(log := s.log + [e]);
    forall u: ThreadId
      ensures ThreadOk(s', u)
    {
      assert ThreadOk(s, u);
    }
    forall u: ThreadId, v: ThreadId
      ensures OneWinner(s', u, v)
    {
      assert OneWinner(s, u, v);
    }
  }

  lemma RunKeeps(s: Cell, t: ThreadId, start: nat, own: Value)
    requires CellOk(s) && PcOf(s, t) == InitRun(start, own)
    ensures CellOk(Note(s.(data := Some(own)), t, InitMark(start, own), Ran(t, own)))
  {
    var s' := Note(s.(data := Some(own)), t, InitMark(start, own), Ran(t, own));
    assert ThreadOk(s, t);
    NothingRead(s.log, Some(own));
    LogGrows(s.log, Ran(t, own), Some(own));
    forall u: ThreadId
      ensures ThreadOk(s', u)
    {
      assert ThreadOk(s, u);
    }
    forall u: ThreadId, v: ThreadId
      ensures OneWinner(s', u, v)
    {
      assert OneWinner(s, u, v) && ThreadOk(s, u) && ThreadOk(s, v);
    }
  }

  // Before any closure has run, nothing was read, so the log agrees with whatever is written first.
  lemma NothingRead(log: seq<Event>, data: Option<Value>)
    requires LogAgrees(log, None)
    ensures LogAgrees(log, data) && forall i | 0 <= i < |log| :: !ReadsValue(log[i])
  {
    forall i | 0 <= i < |log|
      ensures Agrees(log[i], data) && !ReadsValue(log[i])
    {
      assert Agrees(log[i], None);
    }
  }

  lemma MarkKeeps(s: Cell, t: ThreadId, start: nat, own: Value)
    requires CellOk(s) && PcOf(s, t) == InitMark(start, own)
    ensures CellOk(To(s.(completed := true), t, InitOut(start, own, true)))
  {
    var s' := To(s.(completed := true), t, InitOut(start, own, true));
    assert ThreadOk(s, t);
    forall u: ThreadId
      ensures ThreadOk(s', u)
    {
      assert ThreadOk(s, u);
    }
    forall u: ThreadId, v: ThreadId
      ensures OneWinner(s', u, v)
    {
      assert OneWinner(s, u, v);
    }
  }

  lemma ReturnKeeps(s: Cell, t: ThreadId, e: Event)
    requires CellOk(s) && !Holds(PcOf(s, t)) && e.Returned? && e.thread == t && (e.ran <==> Winning(PcOf(s, t))) && Agrees(e, s.data)
    ensures CellOk(Note(s, t, Idle, e))
  {
    var s' := Note(s, t, Idle, e);
    assert ThreadOk(s, t);
    LogGrows(s.log, e, s.data);
    forall u: ThreadId
      ensures ThreadOk(s', u)
    {
      assert ThreadOk(s, u) && OneWinner(s, t, u);
    }
    forall u: ThreadId, v: ThreadId
      ensures OneWinner(s', u, v)
    {
      assert OneWinner(s, u, v);
    }
  }

  lemma StartKeeps(s: Cell, t: ThreadId, own: Option<Value>, pc: Pc)
    requires CellOk(s) && PcOf(s, t).Idle? && (pc.GetSpin? || pc.InitSpin?)
    ensures CellOk(Note(s, t, pc, Started(t, own)))
  {
    QuietKeeps(s, Started(t, own));
    var noted := s.(log := s.log + [Started(t, own)]);
    assert ThreadOk(noted, t);
    MoveKeeps(noted, t, s.lock, pc);
  }

  lemma ActKeepsOk(s: Cell, a: Action)
    requires CellOk(s) && CanAct(s, a)
    ensures CellOk(Act(s, a))
  {
    var t := a.thread;
    assert ThreadOk(s, t);
    match a {
      case Get(_) => StartKeeps(s, t, None, GetSpin(|s.log|));
      case Init(_, own) => StartKeeps(s, t, Some(own), InitSpin(|s.log|, own));
      case Go(_) =>
        if PcOf(s, t).GetSpin? || PcOf(s, t).GetIn? || PcOf(s, t).GetOut? || PcOf(s, t).GetRead? {
          GetKeepsOk(s, t);
        } else {
          InitKeepsOk(s, t);
        }
    }
  }

  lemma GetKeepsOk(s: Cell, t: ThreadId)
    requires CellOk(s) && (PcOf(s, t).GetSpin? || PcOf(s, t).GetIn? || PcOf(s, t).GetOut? || PcOf(s, t).GetRead?)
    ensures CellOk(Act(s, Go(t)))
  {
    assert ThreadOk(s, t);
    match PcOf(s, t) {
      case GetSpin(start) =>
        if s.lock.None? {
          MoveKeeps(s, t, Some(t), GetIn(start));
        }
      case GetIn(start) =>
        QuietKeeps(s, Looked(t));
        var noted := s.(log := s.log + [Looked(t)]);
        assert ThreadOk(noted, t);
        MoveKeeps(noted, t, s.lock, GetOut(start, s.completed, |s.log|));
      case GetOut(start, completed, looked) => MoveKeeps(s, t, None, GetRead(start, completed, looked));
      case GetRead(start, completed, looked) =>
        ReturnKeeps(s, t, Returned(t, if completed then s.data else None, false, start));
    }
  }

  lemma InitKeepsOk(s: Cell, t: ThreadId)
    requires CellOk(s) && !PcOf(s, t).Idle?
    requires !(PcOf(s, t).GetSpin? || PcOf(s, t).GetIn? || PcOf(s, t).GetOut? || PcOf(s, t).GetRead?)
    ensures CellOk(Act(s, Go(t)))
  {
    assert ThreadOk(s, t);
    match PcOf(s, t) {
      case InitSpin(start, own) =>
        if s.lock.None? {
          MoveKeeps(s, t, Some(t), InitIn(start, own));
        }
      case InitIn(start, own) => MoveKeeps(s, t, s.lock, if s.completed then InitOut(start, own, false) else InitRun(start, own));
      case InitRun(start, own) => RunKeeps(s, t, start, own);
      case InitMark(start, own) =>
        MarkKeeps(s, t, start, own);
        QuietKeeps(To(s.(completed := true), t, InitOut(start, own, true)), Completed(t));
      case InitOut(start, own, ran) => MoveKeeps(s, t, None, InitRead(start, own, ran));
      case InitRead(start, own, ran) => ReturnKeeps(s, t, Returned(t, s.data, ran, start));
    }
  }

  // ---- Each step keeps the history ----

  lemma DoneStable(log: seq<Event>, e: Event, n: nat)
    requires n <= |log|
    ensures DoneBy(log + [e], n) <==> DoneBy(log, n)
    ensures DoneBy(log + [e], |log| + 1) <==> DoneBy(log, |log|) || e.Completed?
  {
    if DoneBy(log, |log|) {
      var i :| 0 <= i < |log| && log[i].Completed?;
      assert (log + [e])[i].Completed?;
    }
    if e.Completed? {
      assert (log + [e])[|log|].Completed?;
    }
    if DoneBy(log, n) {
      var i :| 0 <= i < n && log[i].Completed?;
      assert (log + [e])[i].Completed?;
    }
  }

  lemma RanStable(log: seq<Event>, e: Event, t: ThreadId, from: nat, to: nat)
    requires from < |log| && to <= |log|
    ensures RanBetween(log + [e], t, from, to) <==> RanBetween(log, t, from, to)
    ensures RanBetween(log + [e], t, from, |log| + 1) <==> RanBetween(log, t, from, |log|) || (e.Ran? && e.thread == t)
  {
    if RanBetween(log, t, from, |log|) {
      var i :| from < i < |log| && log[i].Ran? && log[i].thread == t;
      assert (log + [e])[i].Ran?;
    }
    if e.Ran? && e.thread == t {
      assert (log + [e])[|log|].Ran?;
    }
    if RanBetween(log, t, from, to) {
      var i :| from < i < to && log[i].Ran? && log[i].thread == t;
      assert (log + [e])[i].Ran?;
    }
  }

  // The events of other threads leave a call alone.
  lemma CallStable(log: seq<Event>, e: Event, t: ThreadId, pc: Pc)
    requires CallOk(log, t, pc) && e.thread != t
    ensures CallOk(log + [e], t, pc)
  {
    if !pc.Idle? {
      RanStable(log, e, t, pc.start, |log|);
      if pc.GetOut? || pc.GetRead? {
        DoneStable(log, e, pc.looked);
      }
    }
  }

  lemma ReturnStable(log: seq<Event>, e: Event, k: nat)
    requires k < |log| && ReturnOk(log, k)
    ensures ReturnOk(log + [e], k)
  {
    var log', r := log + [e], log[k];
    if r.Returned? {
      assert log'[k] == r && log'[r.start] == log[r.start];
      DoneStable(log, e, k);
      if log[r.start].own.None? {
        var l: nat :| l < k && LookedAt(log, r.thread, r.start, l) && (r.result.Some? <==> DoneBy(log, l));
        DoneStable(log, e, l);
        assert LookedAt(log', r.thread, r.start, l);
      } else {
        RanStable(log, e, r.thread, r.start, k);
      }
    }
  }

  // A step of `t` that leaves an event.
  lemma HistoryNote(s: Cell, s': Cell, t: ThreadId, pc: Pc, e: Event)
    requires HistoryOk(s) && e.thread == t && s'.threads == s.threads[t := pc] && s'.log == s.log + [e]
    requires s'.completed <==> s.completed || e.Completed?
    requires CallOk(s'.log, t, pc) && ReturnOk(s'.log, |s.log|)
    ensures HistoryOk(s')
  {
    forall u: ThreadId
      ensures CallOk(s'.log, u, PcOf(s', u))
    {
      if u != t {
        assert CallOk(s.log, u, PcOf(s, u));
        CallStable(s.log, e, u, PcOf(s, u));
      }
    }
    forall k: nat | k < |s'.log|
      ensures ReturnOk(s'.log, k)
    {
      if k < |s.log| {
        assert ReturnOk(s.log, k);
        ReturnStable(s.log, e, k);
      }
    }
    DoneStable(s.log, e, |s.log|);
  }

  // A step of `t` that leaves none.
  lemma HistoryMove(s: Cell, s': Cell, t: ThreadId, pc: Pc)
    requires HistoryOk(s) && s'.threads == s.threads[t := pc] && s'.log == s.log && s'.completed == s.completed
    requires CallOk(s.log, t, pc)
    ensures HistoryOk(s')
  {
    forall u: ThreadId
      ensures CallOk(s'.log, u, PcOf(s', u))
    {
      assert CallOk(s.log, u, PcOf(s, u));
    }
    forall k: nat | k < |s'.log|
      ensures ReturnOk(s'.log, k)
    {
      assert ReturnOk(s.log, k);
    }
  }

  lemma ActKeepsHistory(s: Cell, a: Action)
    requires CellOk(s) && HistoryOk(s) && CanAct(s, a)
    ensures HistoryOk(Act(s, a))
  {
    var t, s' := a.thread, Act(s, a);
    assert ThreadOk(s, t) && CallOk(s.log, t, PcOf(s, t));
    match a {
      case Get(_) => HistoryNote(s, s', t, GetSpin(|s.log|), Started(t, None));
      case Init(_, own) => HistoryNote(s, s', t, InitSpin(|s.log|, own), Started(t, Some(own)));
      case Go(_) =>
        if PcOf(s, t).GetSpin? || PcOf(s, t).GetIn? || PcOf(s, t).GetOut? || PcOf(s, t).GetRead? {
          GetKeepsHistory(s, t);
        } else {
          InitKeepsHistory(s, t);
        }
    }
  }

  lemma GetKeepsHistory(s: Cell, t: ThreadId)
    requires CellOk(s) && HistoryOk(s)
    requires PcOf(s, t).GetSpin? || PcOf(s, t).GetIn? || PcOf(s, t).GetOut? || PcOf(s, t).GetRead?
    ensures HistoryOk(Act(s, Go(t)))
  {
    var s' := Act(s, Go(t));
    assert ThreadOk(s, t) && CallOk(s.log, t, PcOf(s, t));
    match PcOf(s, t) {
      case GetSpin(start) =>
        if s.lock.None? {
          HistoryMove(s, s', t, GetIn(start));
        }
      case GetIn(start) =>
        DoneStable(s.log, Looked(t), |s.log|);
        HistoryNote(s, s', t, GetOut(start, s.completed, |s.log|), Looked(t));
      case GetOut(start, completed, looked) => HistoryMove(s, s', t, GetRead(start, completed, looked));
      case GetRead(start, completed, looked) =>
        var e := Returned(t, if completed then s.data else None, false, start);
        GetReturns(s, t, e);
        HistoryNote(s, s', t, Idle, e);
    }
  }

  lemma GetReturns(s: Cell, t: ThreadId, e: Event)
    requires CellOk(s) && HistoryOk(s) && PcOf(s, t).GetRead? && CallOk(s.log, t, PcOf(s, t)) && ThreadOk(s, t)
    requires e == Returned(t, if PcOf(s, t).completed then s.data else None, false, PcOf(s, t).start)
    ensures ReturnOk(s.log + [e], |s.log|)
  {
    var pc := PcOf(s, t);
    DoneStable(s.log, e, |s.log|);
    DoneStable(s.log, e, pc.looked);
    assert LookedAt(s.log + [e], t, pc.start, pc.looked);
  }

  lemma InitReturns(s: Cell, t: ThreadId, e: Event)
    requires CellOk(s) && HistoryOk(s) && PcOf(s, t).InitRead? && CallOk(s.log, t, PcOf(s, t)) && ThreadOk(s, t)
    requires e == Returned(t, s.data, PcOf(s, t).ran, PcOf(s, t).start)
    ensures ReturnOk(s.log + [e], |s.log|)
  {
    DoneStable(s.log, e, |s.log|);
    RanStable(s.log, e, t, PcOf(s, t).start, |s.log|);
  }

  lemma InitKeepsHistory(s: Cell, t: ThreadId)
    requires CellOk(s) && HistoryOk(s) && !PcOf(s, t).Idle?
    requires !(PcOf(s, t).GetSpin? || PcOf(s, t).GetIn? || PcOf(s, t).GetOut? || PcOf(s, t).GetRead?)
    ensures HistoryOk(Act(s, Go(t)))
  {
    var s' := Act(s, Go(t));
    assert ThreadOk(s, t) && CallOk(s.log, t, PcOf(s, t));
    match PcOf(s, t) {
      case InitSpin(start, own) =>
        if s.lock.None? {
          HistoryMove(s, s', t, InitIn(start, own));
        }
      case InitIn(start, own) => HistoryMove(s, s', t, if s.completed then InitOut(start, own, false) else InitRun(start, own));
      case InitRun(start, own) =>
        RanStable(s.log, Ran(t, own), t, start, |s.log|);
        HistoryNote(s, s', t, InitMark(start, own), Ran(t, own));
      case InitMark(start, own) =>
        RanStable(s.log, Completed(t), t, start, |s.log|);
        HistoryNote(s, s', t, InitOut(start, own, true), Completed(t));
      case InitOut(start, own, ran) => HistoryMove(s, s', t, InitRead(start, own, ran));
      case InitRead(start, own, ran) =>
        InitReturns(s, t, Returned(t, s.data, ran, start));
        HistoryNote(s, s', t, Idle, Returned(t, s.data, ran, start));
    }
  }

  // ---- Whole runs ----

  ghost predicate CanRun(s: Cell, actions: seq<Action>)
    decreases |actions|
  {
    |actions| == 0 || (CanAct(s, actions[0]) && CanRun(Act(s, actions[0]), actions[1..]))
  }

  ghost function Run(s: Cell, actions: seq<Action>): Cell
    requires CanRun(s, actions)
    decreases |actions|
  {
    if |actions| == 0 then s else Run(Act(s, actions[0]), actions[1..])
  }

  lemma {:induction false} RunKeepsOk(s: Cell, actions: seq<Action>)
    requires CellOk(s) && HistoryOk(s) && CanRun(s, actions)
    ensures CellOk(Run(s, actions)) && HistoryOk(Run(s, actions))
    decreases |actions|
  {
    if |actions| > 0 {
      ActKeepsOk(s, actions[0]);
      ActKeepsHistory(s, actions[0]);
      RunKeepsOk(Act(s, actions[0]), actions[1..]);
    }
  }

  lemma NewIsOk()
    ensures CellOk(NEW) && HistoryOk(NEW)
  {
    forall t: ThreadId
      ensures ThreadOk(NEW, t)
    {
    }
  }

  lemma Reachable(actions: seq<Action>) returns (s: Cell)
    requires CanRun(NEW, actions)
    ensures s == Run(NEW, actions) && CellOk(s) && HistoryOk(s)
  {
    NewIsOk();
    RunKeepsOk(NEW, actions);
    s := Run(NEW, actions);
  }

  lemma {:induction false} TwoRuns(log: seq<Event>, i: nat, j: nat)
    requires i < j < |log| && log[i].Ran? && log[j].Ran?
    ensures Runs(log) >= 2
    decreases |log|
  {
    var before := log[..|log| - 1];
    if j < |log| - 1 {
      TwoRuns(before, i, j);
    } else {
      OneRun(before, i);
    }
  }

  lemma {:induction false} OneRun(log: seq<Event>, i: nat)
    requires i < |log| && log[i].Ran?
    ensures Runs(log) >= 1
    decreases |log|
  {
    if i < |log| - 1 {
      OneRun(log[..|log| - 1], i);
    }
  }

  // Where a closure has run, the history says which.
  lemma {:induction false} SomeRun(log: seq<Event>) returns (i: nat)
    requires Runs(log) > 0
    ensures i < |log| && log[i].Ran?
    decreases |log|
  {
    if log[|log| - 1].Ran? {
      i := |log| - 1;
    } else {
      i := SomeRun(log[..|log| - 1]);
    }
  }

  lemma {:induction false} TwoWins(log: seq<Event>, i: nat, j: nat)
    requires i < j < |log| && Won(log[i]) && Won(log[j])
    ensures Wins(log) >= 2
    decreases |log|
  {
    var before := log[..|log| - 1];
    if j < |log| - 1 {
      TwoWins(before, i, j);
    } else {
      OneWin(before, i);
    }
  }

  lemma {:induction false} OneWin(log: seq<Event>, i: nat)
    requires i < |log| && Won(log[i])
    ensures Wins(log) >= 1
    decreases |log|
  {
    if i < |log| - 1 {
      OneWin(log[..|log| - 1], i);
    }
  }

  /** In every interleaving of any number of threads: at most one closure runs, at most one `set` returns `Ok`,
      and all values that are returned are one value. */
  lemma InitializedOnce(actions: seq<Action>, i: nat, j: nat)
    requires CanRun(NEW, actions)
    ensures var log := Run(NEW, actions).log;
            i < j < |log| ==>
              && !(log[i].Ran? && log[j].Ran?)
              && !(Won(log[i]) && Won(log[j]))
              && (ReadsValue(log[i]) && ReadsValue(log[j]) ==> log[i].result == log[j].result)
  {
    var s := Reachable(actions);
    if i < j < |s.log| {
      if s.log[i].Ran? && s.log[j].Ran? {
        TwoRuns(s.log, i, j);
      }
      if Won(s.log[i]) && Won(s.log[j]) {
        TwoWins(s.log, i, j);
      }
      assert Agrees(s.log[i], s.data) && Agrees(s.log[j], s.data);
    }
  }

  /** Every value that any call returned is the value of a closure that ran before. */
  lemma ReadsComeFromARun(actions: seq<Action>, j: nat)
    requires CanRun(NEW, actions)
    ensures var log := Run(NEW, actions).log;
            j < |log| && ReadsValue(log[j]) ==>
              exists i :: 0 <= i < j && log[i].Ran? && log[j].result == Some(log[i].value)
  {
    var s := Reachable(actions);
    if j < |s.log| && ReadsValue(s.log[j]) {
      assert Agrees(s.log[j], s.data);
      var i := SomeRun(s.log);
      assert Agrees(s.log[i], s.data);
      assert i < j && s.log[j].result == Some(s.log[i].value);
    }
  }

  /** What every finished call returned, whatever the others did: a `get` the value exactly if initialization had
      completed when it held the lock and looked; a `set` or `get_or_init` always a value, and the report that its closure
      ran exactly if it ran during the call; then the value is its own. */
  lemma CallsReturnExactly(actions: seq<Action>, k: nat)
    requires CanRun(NEW, actions)
    ensures k < |Run(NEW, actions).log| ==> ReturnOk(Run(NEW, actions).log, k)
  {
    var s := Reachable(actions);
    if k < |s.log| {
      assert ReturnOk(s.log, k);
    }
  }

  /** A call that begins after some call has returned a value returns that value. */
  lemma LaterCallsFindIt(actions: seq<Action>, i: nat, k: nat)
    requires CanRun(NEW, actions)
    ensures var log := Run(NEW, actions).log;
            i < k < |log| && ReadsValue(log[i]) && log[k].Returned? && log[k].start > i ==> log[k].result == log[i].result
  {
    var s := Reachable(actions);
    var log := s.log;
    if i < k < |log| && ReadsValue(log[i]) && log[k].Returned? && log[k].start > i {
      assert ReturnOk(log, i) && ReturnOk(log, k);
      assert Agrees(log[i], s.data) && Agrees(log[k], s.data);
      var c :| 0 <= c < i && log[c].Completed?;
      if log[log[k].start].own.None? {
        var l: nat :| l < k && LookedAt(log, log[k].thread, log[k].start, l) && (log[k].result.Some? <==> DoneBy(log, l));
        assert DoneBy(log, l);
      }
    }
  }

  /** The data is written whenever a thread stands before a read of it, and a `set` whose closure ran
      reads its own value back. */
  lemma ReadsAreInitialized(actions: seq<Action>, t: ThreadId)
    requires CanRun(NEW, actions)
    ensures var s := Run(NEW, actions);
            var pc := PcOf(s, t);
            && ((pc.GetRead? && pc.completed) || pc.InitRead? ==> s.data.Some?)
            && (pc.InitRead? && pc.ran ==> s.data == Some(pc.own))
  {
    var s := Reachable(actions);
    assert ThreadOk(s, t);
  }

  // ---- Calls without others in between ----

  lemma RunUnfolds(s: Cell, a: Action, rest: seq<Action>)
    requires CanAct(s, a) && CanRun(Act(s, a), rest)
    ensures CanRun(s, [a] + rest) && Run(s, [a] + rest) == Run(Act(s, a), rest)
  {
    assert ([a] + rest)[1..] == rest;
  }

  function Steps(t: ThreadId, n: nat): seq<Action>
  {
    if n == 0 then [] else [Go(t)] + Steps(t, n - 1)
  }

  lemma GoOn(s: Cell, t: ThreadId, n: nat)
    requires !PcOf(s, t).Idle? && CanRun(Act(s, Go(t)), Steps(t, n))
    ensures CanRun(s, Steps(t, n + 1)) && Run(s, Steps(t, n + 1)) == Run(Act(s, Go(t)), Steps(t, n))
  {
    RunUnfolds(s, Go(t), Steps(t, n));
  }

  /** With the lock free, `get` on its own returns what is there. */
  lemma SoloGet(s: Cell, t: ThreadId) returns (s': Cell)
    requires CellOk(s) && s.lock.None? && PcOf(s, t).Idle?
    ensures CanRun(s, [Get(t)] + Steps(t, 4)) && s' == Run(s, [Get(t)] + Steps(t, 4))
    ensures s'.lock.None? && PcOf(s', t).Idle? && s'.data == s.data && s'.completed == s.completed
    ensures s'.log == s.log + [Started(t, None), Looked(t), Returned(t, s.data, false, |s.log|)]
  {
    var s1 := Act(s, Get(t));
    var s2 := Act(s1, Go(t));
    var s3 := Act(s2, Go(t));
    var s4 := Act(s3, Go(t));
    s' := Act(s4, Go(t));
    assert Run(s', Steps(t, 0)) == s';
    GoOn(s4, t, 0);
    GoOn(s3, t, 1);
    GoOn(s2, t, 2);
    GoOn(s1, t, 3);
    RunUnfolds(s, Get(t), Steps(t, 4));
  }

  /** With the lock free and the cell empty, `set` or `get_or_init` on its own runs its closure and returns its value. */
  lemma SoloFirstInit(s: Cell, t: ThreadId, own: Value) returns (s': Cell)
    requires CellOk(s) && s.lock.None? && PcOf(s, t).Idle? && !s.completed
    ensures CanRun(s, [Init(t, own)] + Steps(t, 6)) && s' == Run(s, [Init(t, own)] + Steps(t, 6))
    ensures s'.lock.None? && PcOf(s', t).Idle? && s'.data == Some(own) && s'.completed
    ensures s'.log == s.log + [Started(t, Some(own)), Ran(t, own), Completed(t), Returned(t, Some(own), true, |s.log|)]
  {
    var s1 := Act(s, Init(t, own));
    var s2 := Act(s1, Go(t));
    var s3 := Act(s2, Go(t));
    s' := FinishInit(s3, t, |s.log|, own);
    GoOn(s2, t, 4);
    GoOn(s1, t, 5);
    RunUnfolds(s, Init(t, own), Steps(t, 6));
  }

  lemma FinishInit(s: Cell, t: ThreadId, start: nat, own: Value) returns (s': Cell)
    requires PcOf(s, t) == InitRun(start, own)
    ensures CanRun(s, Steps(t, 4)) && s' == Run(s, Steps(t, 4))
    ensures s'.lock.None? && PcOf(s', t).Idle? && s'.data == Some(own) && s'.completed
    ensures s'.log == s.log + [Ran(t, own), Completed(t), Returned(t, Some(own), true, start)]
  {
    var s1 := Act(s, Go(t));
    var s2 := Act(s1, Go(t));
    var s3 := Act(s2, Go(t));
    s' := Act(s3, Go(t));
    assert Run(s', Steps(t, 0)) == s';
    GoOn(s3, t, 0);
    GoOn(s2, t, 1);
    GoOn(s1, t, 2);
    GoOn(s, t, 3);
  }

  /** With the lock free and the cell full, it runs no closure and returns what is there. */
  lemma SoloLaterInit(s: Cell, t: ThreadId, own: Value) returns (s': Cell)
    requires CellOk(s) && s.lock.None? && PcOf(s, t).Idle? && s.completed
    ensures CanRun(s, [Init(t, own)] + Steps(t, 4)) && s' == Run(s, [Init(t, own)] + Steps(t, 4))
    ensures s'.lock.None? && PcOf(s', t).Idle? && s'.data == s.data && s'.completed
    ensures s'.log == s.log + [Started(t, Some(own)), Returned(t, s.data, false, |s.log|)]
  {
    var s1 := Act(s, Init(t, own));
    var s2 := Act(s1, Go(t));
    var s3 := Act(s2, Go(t));
    var s4 := Act(s3, Go(t));
    s' := Act(s4, Go(t));
    assert Run(s', Steps(t, 0)) == s';
    GoOn(s4, t, 0);
    GoOn(s3, t, 1);
    GoOn(s2, t, 2);
    GoOn(s1, t, 3);
    RunUnfolds(s, Init(t, own), Steps(t, 4));
  }
}
