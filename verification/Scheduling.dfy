/** The round-robin scheduler (kernel/src/task/scheduler.rs) on values: what each call does to the queue and
    to the current tasks, conservation over whole runs, and the round-robin order. */
module Scheduling {
  import opened Wrappers

  type TaskId = nat

  /** Registered tasks, the queue, and the current task of each core. */
  datatype Sched = Sched(tasks: set<TaskId>, queue: seq<TaskId>, current: seq<Option<TaskId>>)

  predicate HasCurrent(s: Sched, core: nat)
  {
    core < |s.current| && s.current[core].Some?
  }

  /** `add_task` */
  function AddTask(s: Sched, id: TaskId): Sched
  {
    s.(tasks := s.tasks + {id}, queue := s.queue + [id])
  }

  /** `become_kinit`, up to its call of `schedule`. */
  function AdoptTask(s: Sched, core: nat, id: TaskId): Sched
    requires core < |s.current|
  {
    s.(tasks := s.tasks + {id}, current := s.current[core := Some(id)])
  }

  /** The task that `schedule` picks. */
  function Next(s: Sched, core: nat): TaskId
    requires HasCurrent(s, core)
  {
    (s.queue + [s.current[core].value])[0]
  }

  /** `schedule`: the current task to the back, the front of the queue to the core. */
  function Schedule(s: Sched, core: nat): Sched
    requires HasCurrent(s, core)
  {
    s.(queue := (s.queue + [s.current[core].value])[1..], current := s.current[core := Some(Next(s, core))])
  }

  // ---- Conservation ----

  function Bag(task: Option<TaskId>): multiset<TaskId>
  {
    if task.Some? then multiset{task.value} else multiset{}
  }

  function Running(current: seq<Option<TaskId>>): multiset<TaskId>
  {
    if |current| == 0 then multiset{} else Running(current[1..]) + Bag(current[0])
  }

  /** The queue and the running tasks together are the registered tasks, each exactly once. */
  ghost predicate Conserved(s: Sched)
  {
    multiset(s.queue) + Running(s.current) == multiset(s.tasks)
  }

  lemma {:induction false} RunningUpdate(current: seq<Option<TaskId>>, core: nat, task: Option<TaskId>)
    requires core < |current|
    ensures Running(current[core := task]) + Bag(current[core]) == Running(current) + Bag(task)
  {
    var current' := current[core := task];
    if core == 0 {
      assert current'[1..] == current[1..];
      Swap(Running(current[1..]), Bag(current[0]), Bag(task));
    } else {
      RunningUpdate(current[1..], core - 1, task);
      assert current'[1..] == current[1..][core - 1 := task];
      Exchange(Running(current[1..]), Running(current'[1..]), Bag(current[core]), Bag(task), Bag(current[0]));
    }
  }

  lemma Swap(a: multiset<TaskId>, x: multiset<TaskId>, y: multiset<TaskId>)
    ensures (a + y) + x == (a + x) + y
  {
  }

  lemma Exchange(a: multiset<TaskId>, b: multiset<TaskId>, x: multiset<TaskId>, y: multiset<TaskId>, c: multiset<TaskId>)
    requires b + x == a + y
    ensures (b + c) + x == (a + c) + y
  {
    assert (b + c) + x == (b + x) + c;
    assert (a + c) + y == (a + y) + c;
  }

  lemma NoneAdds(a: multiset<TaskId>, b: multiset<TaskId>)
    requires a + Bag(None) == b
    ensures a == b
  {
    assert a + multiset{} == a;
  }

  // What leaves the queue enters the cores, and back.
  lemma Transfer(q: multiset<TaskId>, q': multiset<TaskId>, r: multiset<TaskId>, r': multiset<TaskId>, x: multiset<TaskId>, y: multiset<TaskId>)
    requires q' + y == q + x && r' + x == r + y
    ensures q' + r' == q + r
  {
    assert (q' + y) + (r' + x) == (q + x) + (r + y);
    forall t: TaskId
      ensures (q' + r')[t] == (q + r)[t]
    {
      assert (q' + y)[t] == (q + x)[t] && (r' + x)[t] == (r + y)[t];
    }
  }

  lemma PopFront(queue: seq<TaskId>, prev: TaskId)
    ensures var pushed := queue + [prev];
            && multiset(pushed[1..]) + multiset{pushed[0]} == multiset(queue) + multiset{prev}
            && pushed[0] in multiset(queue) + multiset{prev}
  {
    var pushed := queue + [prev];
    assert pushed == [pushed[0]] + pushed[1..];
    assert multiset(pushed) == multiset{pushed[0]} + multiset(pushed[1..]);
  }

  lemma RunningHas(current: seq<Option<TaskId>>, core: nat)
    requires core < |current| && current[core].Some?
    ensures current[core].value in Running(current)
  {
    RunningUpdate(current, core, None);
    assert current[core].value in Running(current[core := None]) + Bag(current[core]);
  }

  /** Every `unwrap` in `schedule` succeeds, and conservation goes on. */
  lemma ScheduleKeepsConserved(s: Sched, core: nat)
    requires Conserved(s) && HasCurrent(s, core)
    ensures Conserved(Schedule(s, core)) && Next(s, core) in s.tasks && s.current[core].value in s.tasks
    ensures HasCurrent(Schedule(s, core), core)
  {
    var prev, s' := s.current[core].value, Schedule(s, core);
    var next := Next(s, core);
    RunningUpdate(s.current, core, Some(next));
    PopFront(s.queue, prev);
    Transfer(multiset(s.queue), multiset(s'.queue), Running(s.current), Running(s'.current), multiset{prev}, multiset{next});
    RunningHas(s.current, core);
    assert forall t: TaskId :: t in multiset(s.tasks) <==> t in multiset(s.queue) || t in Running(s.current);
  }

  /** Adding a task keeps conservation exactly when its id is new. */
  lemma AddKeepsConserved(s: Sched, id: TaskId)
    requires Conserved(s)
    ensures Conserved(AddTask(s, id)) <==> id !in s.tasks
  {
    if id in s.tasks {
      assert s.tasks + {id} == s.tasks;
      assert |multiset(s.queue + [id])| == |s.queue| + 1;
      assert |multiset(s.queue)| + |Running(s.current)| == |multiset(s.tasks)|;
    } else {
      assert multiset(s.tasks + {id}) == multiset(s.tasks) + multiset{id};
    }
  }

  lemma AdoptKeepsConserved(s: Sched, core: nat, id: TaskId)
    requires Conserved(s) && id !in s.tasks && core < |s.current| && s.current[core].None?
    ensures Conserved(AdoptTask(s, core, id))
  {
    RunningUpdate(s.current, core, Some(id));
    NoneAdds(Running(s.current[core := Some(id)]), Running(s.current) + multiset{id});
    assert multiset(s.tasks + {id}) == multiset(s.tasks) + multiset{id};
  }

  /** No task runs on two cores, and none is both running and queued. */
  lemma ConservedMeans(s: Sched, a: nat, b: nat)
    requires Conserved(s) && HasCurrent(s, a)
    ensures s.current[a].value in s.tasks && s.current[a].value !in s.queue
    ensures HasCurrent(s, b) && a != b ==> s.current[a] != s.current[b]
    ensures forall t :: t in s.tasks <==> t in s.queue || t in Running(s.current)
    ensures forall i, j | 0 <= i < j < |s.queue| :: s.queue[i] != s.queue[j]
  {
    var t := s.current[a].value;
    RunningHas(s.current, a);
    assert multiset(s.tasks)[t] == multiset(s.queue)[t] + Running(s.current)[t];
    if HasCurrent(s, b) && a != b && s.current[a] == s.current[b] {
      RunningTwice(s.current, a, b);
    }
    forall u: TaskId
      ensures u in s.tasks <==> u in s.queue || u in Running(s.current)
    {
      assert u in multiset(s.tasks) <==> u in multiset(s.queue) + Running(s.current);
    }
    forall i, j | 0 <= i < j < |s.queue|
      ensures s.queue[i] != s.queue[j]
    {
      QueueCount(s.queue, i, j);
      assert multiset(s.queue)[s.queue[i]] <= multiset(s.tasks)[s.queue[i]];
    }
  }

  lemma RunningTwice(current: seq<Option<TaskId>>, a: nat, b: nat)
    requires a < |current| && b < |current| && a != b && current[a].Some? && current[a] == current[b]
    ensures Running(current)[current[a].value] >= 2
  {
    RunningUpdate(current, a, None);
    RunningHas(current[a := None], b);
    NoneAdds(Running(current), Running(current[a := None]) + Bag(current[a]));
    assert Running(current)[current[a].value] == Running(current[a := None])[current[a].value] + 1;
  }

  lemma QueueCount(queue: seq<TaskId>, i: nat, j: nat)
    requires i < j < |queue|
    ensures queue[i] == queue[j] ==> multiset(queue)[queue[i]] >= 2
  {
    assert queue == queue[..j] + [queue[j]] + queue[j + 1..];
    assert queue[..j][i] in multiset(queue[..j]);
  }

  // ---- Runs ----

  datatype Event = Add(id: TaskId) | Call(core: nat)

  /** New tasks have new ids, and only cores with a current task call `schedule`. */
  predicate CanStep(s: Sched, e: Event)
  {
    match e
    case Add(id) => id !in s.tasks
    case Call(core) => HasCurrent(s, core)
  }

  function Step(s: Sched, e: Event): Sched
    requires CanStep(s, e)
  {
    match e
    case Add(id) => AddTask(s, id)
    case Call(core) => Schedule(s, core)
  }

  predicate CanRun(s: Sched, events: seq<Event>)
    decreases |events|
  {
    |events| == 0 || (CanStep(s, events[0]) && CanRun(Step(s, events[0]), events[1..]))
  }

  function Run(s: Sched, events: seq<Event>): Sched
    requires CanRun(s, events)
    decreases |events|
  {
    if |events| == 0 then s else Run(Step(s, events[0]), events[1..])
  }

  /** In every run of any cores, no task is lost, duplicated or run twice at once. */
  lemma {:induction false} RunKeepsConserved(s: Sched, events: seq<Event>)
    requires Conserved(s) && CanRun(s, events)
    ensures Conserved(Run(s, events))
    decreases |events|
  {
    if |events| > 0 {
      match events[0] {
        case Add(id) => AddKeepsConserved(s, id);
        case Call(core) => ScheduleKeepsConserved(s, core);
      }
      RunKeepsConserved(Step(s, events[0]), events[1..]);
    }
  }

  // ---- Round robin ----

  /** The tasks that the `schedule` calls of a run pick, in order. */
  function Chosen(s: Sched, events: seq<Event>): seq<TaskId>
    requires CanRun(s, events)
    decreases |events|
  {
    if |events| == 0 then []
    else (if events[0].Call? then [Next(s, events[0].core)] else []) + Chosen(Step(s, events[0]), events[1..])
  }

  /** Whatever tasks are added in between, the task at queue index `k` is what the `k + 1`-th call picks. */
  lemma {:induction false} ChosenInQueueOrder(s: Sched, events: seq<Event>, k: nat)
    requires CanRun(s, events) && k < |s.queue| && k < |Chosen(s, events)|
    ensures Chosen(s, events)[k] == s.queue[k]
    decreases |events|
  {
    var s' := Step(s, events[0]);
    if events[0].Add? {
      assert Chosen(s, events) == Chosen(s', events[1..]);
      ChosenInQueueOrder(s', events[1..], k);
    } else if k > 0 {
      assert s'.queue[k - 1] == s.queue[k];
      ChosenInQueueOrder(s', events[1..], k - 1);
    }
  }

  /** ... and no earlier call picks it. */
  lemma ChosenNoEarlier(s: Sched, events: seq<Event>, k: nat, j: nat)
    requires Conserved(s) && CanRun(s, events) && j < k < |s.queue| && j < |Chosen(s, events)|
    ensures Chosen(s, events)[j] != s.queue[k]
  {
    ChosenInQueueOrder(s, events, j);
    QueueCount(s.queue, j, k);
    assert multiset(s.queue)[s.queue[k]] <= multiset(s.tasks)[s.queue[k]];
  }

  function Calls(core: nat, n: nat): seq<Event>
  {
    if n == 0 then [] else [Call(core)] + Calls(core, n - 1)
  }

  // On one core the queue and the current task rotate together.
  function Rotated(s: Sched, core: nat, n: nat): Sched
    requires HasCurrent(s, core) && n <= |s.queue| + 1
  {
    var ring := s.queue + [s.current[core].value];
    if n == 0 then s
    else s.(queue := ring[n..] + ring[..n - 1], current := s.current[core := Some(ring[n - 1])])
  }

  lemma RotatedStep(s: Sched, core: nat, n: nat)
    requires HasCurrent(s, core) && 0 < n <= |s.queue| + 1
    ensures var s' := Schedule(s, core);
            && |s'.queue| == |s.queue| && HasCurrent(s', core)
            && Rotated(s', core, n - 1) == Rotated(s, core, n)
            && (s.queue + [s.current[core].value])[..n] == [Next(s, core)] + (s'.queue + [s'.current[core].value])[..n - 1]
  {
    var s' := Schedule(s, core);
    var ring := s.queue + [s.current[core].value];
    var ring' := s'.queue + [s'.current[core].value];
    assert ring' == ring[1..] + [ring[0]];
    if n == 1 {
      assert ring[1..] + ring[..0] == s'.queue;
    } else {
      assert ring'[n - 1..] + ring'[..n - 2] == ring[n..] + ring[..n - 1];
      assert s'.current[core := Some(ring[n - 1])] == s.current[core := Some(ring[n - 1])];
    }
  }

  lemma {:induction false} Rotation(s: Sched, core: nat, n: nat)
    requires HasCurrent(s, core) && n <= |s.queue| + 1
    ensures CanRun(s, Calls(core, n))
    ensures Chosen(s, Calls(core, n)) == (s.queue + [s.current[core].value])[..n]
    ensures Run(s, Calls(core, n)) == Rotated(s, core, n)
    decreases n
  {
    if n > 0 {
      assert Calls(core, n)[0] == Call(core) && Calls(core, n)[1..] == Calls(core, n - 1);
      RotatedStep(s, core, n);
      Rotation(Schedule(s, core), core, n - 1);
    }
  }

  lemma RingCounts(s: Sched, core: nat, ring: seq<TaskId>)
    requires Conserved(s) && HasCurrent(s, core) && Running(s.current) == multiset{s.current[core].value}
    requires ring == s.queue + [s.current[core].value]
    ensures multiset(ring) == multiset(s.tasks) && |ring| == |s.tasks|
  {
    assert |multiset(ring)| == |ring| && |multiset(s.tasks)| == |s.tasks|;
  }

  /** On one core with a fixed set of `n` tasks, any `n` consecutive calls pick each task exactly once
      and leave the scheduler as it was. */
  lemma FullRound(s: Sched, core: nat)
    requires Conserved(s) && HasCurrent(s, core) && Running(s.current) == multiset{s.current[core].value}
    ensures |s.tasks| == |s.queue| + 1
    ensures CanRun(s, Calls(core, |s.tasks|))
    ensures multiset(Chosen(s, Calls(core, |s.tasks|))) == multiset(s.tasks)
    ensures Run(s, Calls(core, |s.tasks|)) == s
  {
    var ring := s.queue + [s.current[core].value];
    RingCounts(s, core, ring);
    Rotation(s, core, |ring|);
    RotatedFully(s, core);
    assert ring[..|ring|] == ring;
  }

  lemma RotatedFully(s: Sched, core: nat)
    requires HasCurrent(s, core)
    ensures Rotated(s, core, |s.queue| + 1) == s
  {
    var ring := s.queue + [s.current[core].value];
    assert ring[|ring|..] + ring[..|ring| - 1] == s.queue;
    assert s.current[core := Some(ring[|ring| - 1])] == s.current;
  }
}
