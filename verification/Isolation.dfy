/** Any number of memory contexts on one allocator: every interleaving of creation, of the steps of
    `alloc_page`, of `alloc_page_unmapped` and of user stores. A level of `alloc_page` that finds an empty row is two
    steps, the allocation and the row write, with anything of other contexts in between. */
module Isolation {
  import opened Wrappers
  import opened PhysicalMemory
  import opened PageTable
  import opened PageAllocator
  import opened RadixTree
  import opened Translation
  import opened AddressSpace
  import opened UserMemory

  /** An `alloc_page` in progress: it holds its context's lock. `taken` is the page that it has allocated and
      not yet written to a row. */
  datatype Walk = Walk(t: TableManager, address: nat, taken: Option<nat>)

  datatype Context = Context(root: nat, pages: seq<nat>, walk: Option<Walk>)

  datatype System = System(mem: Memory, cursor: nat, contexts: seq<Context>)

  datatype Op =
    | Create
    | Begin(i: nat, address: nat)
    | Level(i: nat)
    | Unmapped(i: nat)
    | Store(i: nat, dst: nat, bytes: seq<Byte>)

  ghost function View(s: System, i: nat): Vm
    requires i < |s.contexts|
  {
    Vm(s.mem, s.cursor, s.contexts[i].pages)
  }

  ghost predicate WalkOk(vm: Vm, c: Context)
  {
    c.walk.Some? ==>
      && OnPath(vm, c.root, c.walk.value.t, c.walk.value.address)
      && (c.walk.value.taken.Some? ==> TakenOk(vm, c.root, c.walk.value.t, c.walk.value.address, c.walk.value.taken.value))
  }

  /** The taken page is the last one recorded, still zero and in no path, and its row is still empty. */
  ghost predicate TakenOk(vm: Vm, root: nat, t: TableManager, address: nat, page: nat)
  {
    && |vm.pages| > 0 && vm.pages[|vm.pages| - 1] == page
    && t.level <= LEVEL_MAX && address < VA_LIMIT
    && ContextOk(vm.mem, root, vm.pages[..|vm.pages| - 1])
    && page in vm.mem && vm.mem[page] == ZeroPage()
    && Reach(LinksOf(vm.mem), root, t.level + 1, address / PAGE_SIZE).None?
  }

  ghost predicate ContextAt(layout: Layout, s: System, i: nat)
    requires i < |s.contexts|
  {
    VmOk(layout, View(s, i), s.contexts[i].root) && WalkOk(View(s, i), s.contexts[i])
  }

  ghost predicate DisjointPages(a: Context, b: Context)
  {
    forall p | p in a.pages :: p !in b.pages
  }

  /** Every context is well formed and no page belongs to two contexts. */
  ghost predicate SystemOk(layout: Layout, s: System)
  {
    && AllocatorOk(layout, s.mem, s.cursor)
    && (forall i: nat | i < |s.contexts| :: ContextAt(layout, s, i))
    && (forall i: nat, j: nat | i < j < |s.contexts| :: DisjointPages(s.contexts[i], s.contexts[j]))
  }

  // ---- Steps ----

  /** The walk one level deeper, or ended. */
  function Deeper(w: Walk, page: nat): Option<Walk>
  {
    if w.t.level < LEVEL_MAX
    then Some(Walk(TableManager(page, w.t.level + 1, TableBase(w.address, w.t.level + 1)), w.address, None))
    else None
  }

  /** One step of a walk: write the row of the page taken before, follow the row, or take a page. */
  ghost function AllocStep(layout: Layout, vm: Vm, root: nat, w: Walk): (Vm, Option<Walk>)
    requires UsableLayout(layout) && w.t.level <= LEVEL_MAX && w.t.table in vm.mem
  {
    var vpn := w.address / PAGE_SIZE;
    var next := Reach(LinksOf(vm.mem), root, w.t.level + 1, vpn);
    if w.taken.Some? then
      if !Fits(w.taken.value) then (vm, None)
      else (WithLink(vm, w.t.table, Slot(vpn, w.t.level), LinkRow(w.t.level, w.taken.value)), Deeper(w, w.taken.value))
    else if next.Some? then (vm, Deeper(w, next.value))
    else
      var (vm', page) := AllocRaw(layout, vm);
      (vm', if page.Err? then None else Some(w.(taken := Some(page.value))))
  }

  lemma TableRecorded(vm: Vm, root: nat, t: TableManager, address: nat)
    requires ContextOk(vm.mem, root, vm.pages) && OnPath(vm, root, t, address)
    ensures t.table in vm.mem && t.table in vm.pages
  {
    assert t.table in vm.pages;
  }

  /** Without another context in between, the two steps are a level of the memory context's walk. */
  lemma TakeThenWrite(layout: Layout, vm: Vm, root: nat, t: TableManager, address: nat)
    requires VmOk(layout, vm, root) && OnPath(vm, root, t, address) && t.table in vm.mem
    requires Reach(LinksOf(vm.mem), root, t.level + 1, address / PAGE_SIZE).None? && AllocRaw(layout, vm).1.Ok?
    ensures var (vm1, w) := AllocStep(layout, vm, root, Walk(t, address, None));
            && w.Some? && w.value.t == t && t.table in vm1.mem
            && var (vm2, _) := AllocStep(layout, vm1, root, w.value);
               && (t.level < LEVEL_MAX ==> vm2 == TableOutcome(layout, vm, root, t, address).0)
               && (t.level == LEVEL_MAX ==> vm2 == PageOutcome(layout, vm, root, t, address).0)
  {
    AllocRawKeeps(layout, vm, root);
  }

  /** The new view and walk of the context that a step acts on. */
  ghost function StepContext(layout: Layout, s: System, op: Op): (Vm, Option<Walk>)
    requires SystemOk(layout, s) && !op.Create? && op.i < |s.contexts|
  {
    var c, vm := s.contexts[op.i], View(s, op.i);
    assert ContextAt(layout, s, op.i);
    match op
    case Begin(_, address) =>
      (vm, if c.walk.None? && address < VA_LIMIT then Some(Walk(TableManager(c.root, LEVEL_ROOT, 0), address, None)) else c.walk)
    case Level(_) =>
      if c.walk.None? then (vm, None)
      else
        TableRecorded(vm, c.root, c.walk.value.t, c.walk.value.address);
        AllocStep(layout, vm, c.root, c.walk.value)
    case Unmapped(_) => if c.walk.None? then (AllocRaw(layout, vm).0, None) else (vm, c.walk)
    case Store(_, dst, bytes) =>
      var stored := CopyToUser(vm.mem, c.root, dst, bytes);
      (if stored.Some? then vm.(mem := stored.value) else vm, c.walk)
  }

  function Updated(s: System, i: nat, vm: Vm, walk: Option<Walk>): System
    requires i < |s.contexts|
  {
    System(vm.mem, vm.cursor, s.contexts[i := Context(s.contexts[i].root, vm.pages, walk)])
  }

  ghost function Step(layout: Layout, s: System, op: Op): System
    requires SystemOk(layout, s)
  {
    if op.Create? then
      var (page, next) := Scan(layout, s.cursor);
      if page.None? then s.(cursor := next)
      else System(s.mem[page.value := ZeroPage()], next, s.contexts + [Context(page.value, [page.value], None)])
    else if op.i < |s.contexts| then
      Updated(s, op.i, StepContext(layout, s, op).0, StepContext(layout, s, op).1)
    else s
  }

  // ---- What a step leaves alone ----

  /** The memory of others and the record of old pages stay; new pages are fresh. */
  ghost predicate Spares(vm: Vm, vm': Vm)
  {
    && vm.pages <= vm'.pages
    && vm.cursor <= vm'.cursor
    && (forall i | |vm.pages| <= i < |vm'.pages| :: vm.cursor <= vm'.pages[i])
    && (forall p | p in vm.mem && p < vm.cursor && p !in vm.pages :: p in vm'.mem && vm'.mem[p] == vm.mem[p])
    && (forall p | p in vm.mem :: p in vm'.mem)
  }

  lemma FollowOk(layout: Layout, vm: Vm, root: nat, w: Walk, next: nat)
    requires VmOk(layout, vm, root) && OnPath(vm, root, w.t, w.address)
    requires Reach(LinksOf(vm.mem), root, w.t.level + 1, w.address / PAGE_SIZE) == Some(next)
    ensures WalkOk(vm, Context(root, vm.pages, Deeper(w, next)))
  {
  }

  lemma TakeOk(layout: Layout, vm: Vm, root: nat, w: Walk)
    requires VmOk(layout, vm, root) && OnPath(vm, root, w.t, w.address)
    requires Reach(LinksOf(vm.mem), root, w.t.level + 1, w.address / PAGE_SIZE).None?
    ensures var (vm', page) := AllocRaw(layout, vm);
            && VmOk(layout, vm', root) && Spares(vm, vm') && SameFrames(vm.mem, vm'.mem, root)
            && (page.Ok? ==> WalkOk(vm', Context(root, vm'.pages, Some(w.(taken := Some(page.value))))))
  {
    AllocRawKeeps(layout, vm, root);
    var (vm', page) := AllocRaw(layout, vm);
    if page.Ok? {
      assert vm'.pages[..|vm'.pages| - 1] == vm.pages;
    }
  }

  /** Exactly one translation is added, to the page taken. */
  ghost predicate Added(mem: Memory, mem': Memory, root: nat, vpn: nat, page: nat)
  {
    && Reach(LinksOf(mem), root, 4, vpn).None?
    && forall v: nat | v < VPN_LIMIT ::
         Reach(LinksOf(mem'), root, 4, v) == if v == vpn then Some(page) else Reach(LinksOf(mem), root, 4, v)
  }

  // Writing the row of the page taken, on the tree without it.
  lemma WriteTree(vm: Vm, root: nat, w: Walk, page: nat) returns (mem': Memory)
    requires ContextOk(vm.mem, root, vm.pages) && OnPath(vm, root, w.t, w.address)
    requires TakenOk(vm, root, w.t, w.address, page) && Fits(page) && Distinct(vm.pages)
    ensures w.t.table in vm.mem && w.t.table in vm.pages && mem' == Linked(vm.mem, w.t.table, w.t.level, w.address / PAGE_SIZE, page)
    ensures ContextOk(mem', root, vm.pages)
    ensures forall d: nat, v: nat | d <= 4 && v < VPN_LIMIT ::
              Reach(LinksOf(mem'), root, d, v) == ReachAfter(LinksOf(vm.mem), root, w.t.level, w.address / PAGE_SIZE, page, d, v)
  {
    TableRecorded(vm, root, w.t, w.address);
    var base := vm.pages[..|vm.pages| - 1];
    assert base + [page] == vm.pages;
    LinkKeepsContextOk(vm.mem, root, base, w.t.level, w.address / PAGE_SIZE, w.t.table, page);
    mem' := Linked(vm.mem, w.t.table, w.t.level, w.address / PAGE_SIZE, page);
  }

  lemma WriteOk(layout: Layout, vm: Vm, root: nat, w: Walk, page: nat)
    requires VmOk(layout, vm, root) && OnPath(vm, root, w.t, w.address)
    requires TakenOk(vm, root, w.t, w.address, page) && Fits(page) && w.t.table in vm.mem
    ensures var vm' := WithLink(vm, w.t.table, Slot(w.address / PAGE_SIZE, w.t.level), LinkRow(w.t.level, page));
            && VmOk(layout, vm', root) && Spares(vm, vm')
            && WalkOk(vm', Context(root, vm'.pages, Deeper(w, page)))
            && (w.t.level < LEVEL_MAX ==> SameFrames(vm.mem, vm'.mem, root))
            && (w.t.level == LEVEL_MAX ==> Added(vm.mem, vm'.mem, root, w.address / PAGE_SIZE, page))
  {
    var mem' := WriteTree(vm, root, w, page);
    if w.t.level < LEVEL_MAX {
      TableLinkKeepsFrames(LinksOf(vm.mem), LinksOf(mem'), root, w.t.level, w.address / PAGE_SIZE, page);
    }
  }

  lemma StoreOk(layout: Layout, vm: Vm, c: Context, dst: nat, bytes: seq<Byte>)
    requires VmOk(layout, vm, c.root) && WalkOk(vm, c)
    requires CopyToUser(vm.mem, c.root, dst, bytes).Some?
    ensures var vm' := vm.(mem := CopyToUser(vm.mem, c.root, dst, bytes).value);
            && VmOk(layout, vm', c.root) && Spares(vm, vm') && WalkOk(vm', c)
            && SameFrames(vm.mem, vm'.mem, c.root)
  {
    CopyToUserMeaning(vm.mem, c.root, vm.pages, dst, bytes, 0);
    if c.walk.Some? && c.walk.value.taken.Some? {
      CopyToUserMeaning(vm.mem, c.root, vm.pages[..|vm.pages| - 1], dst, bytes, 0);
    }
  }

  lemma UnmappedOk(layout: Layout, vm: Vm, c: Context)
    requires VmOk(layout, vm, c.root)
    ensures var vm' := AllocRaw(layout, vm).0;
            VmOk(layout, vm', c.root) && Spares(vm, vm') && SameFrames(vm.mem, vm'.mem, c.root)
  {
    AllocRawKeeps(layout, vm, c.root);
  }

  lemma AllocStepOk(layout: Layout, vm: Vm, root: nat, w: Walk)
    requires VmOk(layout, vm, root) && WalkOk(vm, Context(root, vm.pages, Some(w))) && w.t.table in vm.mem
    ensures var (vm', walk') := AllocStep(layout, vm, root, w);
            && VmOk(layout, vm', root) && Spares(vm, vm')
            && WalkOk(vm', Context(root, vm'.pages, walk'))
            && (Adds(w) ==> Added(vm.mem, vm'.mem, root, w.address / PAGE_SIZE, w.taken.value))
            && (!Adds(w) ==> SameFrames(vm.mem, vm'.mem, root))
  {
    var next := Reach(LinksOf(vm.mem), root, w.t.level + 1, w.address / PAGE_SIZE);
    if w.taken.Some? {
      if Fits(w.taken.value) {
        WriteOk(layout, vm, root, w, w.taken.value);
      }
    } else if next.Some? {
      FollowOk(layout, vm, root, w, next.value);
    } else {
      TakeOk(layout, vm, root, w);
    }
  }

  /** The step that adds a translation: the row write of the last level. */
  predicate Adds(w: Walk)
  {
    w.t.level == LEVEL_MAX && w.taken.Some? && Fits(w.taken.value)
  }

  predicate AddsAt(c: Context, op: Op)
  {
    op.Level? && c.walk.Some? && Adds(c.walk.value)
  }

  /** The context that acts stays well formed, touches no foreign memory, and gains a translation, exactly
      one, only in the row write of the last level of a walk. */
  lemma StepContextOk(layout: Layout, s: System, op: Op)
    requires SystemOk(layout, s) && !op.Create? && op.i < |s.contexts|
    ensures var (vm', walk') := StepContext(layout, s, op);
            var c := s.contexts[op.i];
            && VmOk(layout, vm', c.root)
            && Spares(View(s, op.i), vm')
            && WalkOk(vm', Context(c.root, vm'.pages, walk'))
            && (!AddsAt(c, op) ==> SameFrames(s.mem, vm'.mem, c.root))
            && (AddsAt(c, op) ==> Added(s.mem, vm'.mem, c.root, c.walk.value.address / PAGE_SIZE, c.walk.value.taken.value))
  {
    var c, vm := s.contexts[op.i], View(s, op.i);
    assert ContextAt(layout, s, op.i);
    match op
    case Begin(_, address) =>
      if address < VA_LIMIT {
        AtRoot(vm, c.root, address);
      }
    case Level(_) =>
      if c.walk.Some? {
        TableRecorded(vm, c.root, c.walk.value.t, c.walk.value.address);
        AllocStepOk(layout, vm, c.root, c.walk.value);
      }
    case Unmapped(_) => UnmappedOk(layout, vm, c);
    case Store(_, dst, bytes) =>
      if CopyToUser(vm.mem, c.root, dst, bytes).Some? {
        StoreOk(layout, vm, c, dst, bytes);
      }
  }

  // Another context's view after a step.
  lemma OtherContextKept(layout: Layout, s: System, i: nat, j: nat, vm': Vm)
    requires SystemOk(layout, s) && i < |s.contexts| && j < |s.contexts| && i != j
    requires Spares(View(s, i), vm')
    requires VmOk(layout, vm', s.contexts[i].root)
    ensures var c := s.contexts[j];
            var other := Vm(vm'.mem, vm'.cursor, c.pages);
            && VmOk(layout, other, c.root)
            && WalkOk(other, c)
            && SameReach(s.mem, vm'.mem, c.root)
            && (forall p | p in c.pages :: p in s.mem && vm'.mem[p] == s.mem[p] && p !in vm'.pages)
  {
    var c := s.contexts[j];
    assert ContextAt(layout, s, j);
    assert DisjointPages(s.contexts[if i < j then i else j], s.contexts[if i < j then j else i]);
    forall p | p in c.pages
      ensures p in s.mem && vm'.mem[p] == s.mem[p] && p !in vm'.pages
    {
      assert p !in s.contexts[i].pages;
    }
    ContextFrame(s.mem, vm'.mem, c.root, c.pages);
    WalkFrame(View(s, j), Vm(vm'.mem, vm'.cursor, c.pages), c);
  }

  // A walk that does not act stays where it is, with the page it has taken.
  lemma WalkFrame(vm: Vm, vm': Vm, c: Context)
    requires ContextOk(vm.mem, c.root, vm.pages) && WalkOk(vm, c) && vm'.pages == vm.pages
    requires forall p | p in vm.pages :: p in vm'.mem && vm'.mem[p] == vm.mem[p]
    ensures WalkOk(vm', c)
  {
    ContextFrame(vm.mem, vm'.mem, c.root, vm.pages);
    if c.walk.Some? && c.walk.value.taken.Some? {
      ContextFrame(vm.mem, vm'.mem, c.root, vm.pages[..|vm.pages| - 1]);
    }
  }

  /** Every step keeps the system well formed. */
  lemma StepKeepsOk(layout: Layout, s: System, op: Op)
    requires SystemOk(layout, s)
    ensures SystemOk(layout, Step(layout, s, op))
  {
    var s' := Step(layout, s, op);
    if op.Create? {
      CreateKeepsOk(layout, s);
    } else if op.i < |s.contexts| {
      StepContextOk(layout, s, op);
      var vm' := StepContext(layout, s, op).0;
      forall j: nat | j < |s'.contexts|
        ensures ContextAt(layout, s', j)
        ensures j != op.i ==> DisjointPages(s'.contexts[j], s'.contexts[op.i]) && DisjointPages(s'.contexts[op.i], s'.contexts[j])
      {
        if j != op.i {
          OtherContextKept(layout, s, op.i, j, vm');
        }
      }
      forall j: nat, k: nat | j < k < |s'.contexts|
        ensures DisjointPages(s'.contexts[j], s'.contexts[k])
      {
        if j != op.i && k != op.i {
          assert DisjointPages(s.contexts[j], s.contexts[k]);
        }
      }
    }
  }

  lemma CreateKeepsOk(layout: Layout, s: System)
    requires SystemOk(layout, s)
    ensures SystemOk(layout, Step(layout, s, Create))
    ensures forall j: nat | j < |s.contexts| :: SameReach(s.mem, Step(layout, s, Create).mem, s.contexts[j].root)
  {
    var s' := Step(layout, s, Create);
    var (page, next) := Scan(layout, s.cursor);
    AllocRawFits(layout, Vm(s.mem, s.cursor, []));
    if page.Some? {
      NewContextIsEmpty(layout, s.mem, s.cursor);
    }
    forall j: nat | j < |s.contexts|
      ensures ContextAt(layout, s', j) && SameReach(s.mem, s'.mem, s.contexts[j].root)
      ensures page.Some? ==> DisjointPages(s.contexts[j], s'.contexts[|s.contexts|])
    {
      assert ContextAt(layout, s, j);
      ContextFrame(s.mem, s'.mem, s.contexts[j].root, s.contexts[j].pages);
      WalkFrame(View(s, j), View(s', j), s.contexts[j]);
    }
    if page.Some? {
      assert View(s', |s.contexts|) == Vm(s'.mem, s'.cursor, [page.value]);
    }
    forall j: nat, k: nat | j < k < |s'.contexts|
      ensures DisjointPages(s'.contexts[j], s'.contexts[k])
    {
      if k < |s.contexts| {
        assert DisjointPages(s.contexts[j], s.contexts[k]);
      }
    }
  }

  // ---- Isolation ----

  predicate ActsOn(op: Op, i: nat)
  {
    !op.Create? && op.i == i
  }

  /** A step of one context changes no translation and no byte of another. */
  lemma StepIsolates(layout: Layout, s: System, op: Op, j: nat, va: nat)
    requires SystemOk(layout, s) && j < |s.contexts| && !ActsOn(op, j)
    ensures var s' := Step(layout, s, op);
            && j < |s'.contexts| && s'.contexts[j] == s.contexts[j]
            && Translate(s'.mem, s.contexts[j].root, va) == Translate(s.mem, s.contexts[j].root, va)
            && UserByte(s'.mem, s.contexts[j].root, va) == UserByte(s.mem, s.contexts[j].root, va)
  {
    var s', c := Step(layout, s, op), s.contexts[j];
    var frame := OthersFrameKept(layout, s, op, j, va);
    StepKeepsOk(layout, s, op);
    assert ContextAt(layout, s, j) && ContextAt(layout, s', j);
    TranslateIsFrame(s.mem, c.root, c.pages, va);
    TranslateIsFrame(s'.mem, c.root, c.pages, va);
  }

  lemma OthersFrameKept(layout: Layout, s: System, op: Op, j: nat, va: nat) returns (frame: Option<nat>)
    requires SystemOk(layout, s) && j < |s.contexts| && !ActsOn(op, j)
    ensures var s', c := Step(layout, s, op), s.contexts[j];
            && j < |s'.contexts| && s'.contexts[j] == c
            && frame == Frame(s.mem, c.root, va) == Frame(s'.mem, c.root, va)
            && (frame.Some? ==> frame.value in s.mem && frame.value in s'.mem && s'.mem[frame.value] == s.mem[frame.value])
  {
    var s', c := Step(layout, s, op), s.contexts[j];
    assert ContextAt(layout, s, j);
    frame := Frame(s.mem, c.root, va);
    if op.Create? {
      CreateKeepsOk(layout, s);
      AllocRawFits(layout, Vm(s.mem, s.cursor, []));
    } else if op.i < |s.contexts| {
      StepContextOk(layout, s, op);
      OtherContextKept(layout, s, op.i, j, StepContext(layout, s, op).0);
    }
    SameReachSameFrame(s.mem, s'.mem, c.root, va);
    assert frame.Some? ==> frame.value in c.pages;
  }

  /** A page reached in two contexts, or along two paths of one, does not exist: every table and
      every frame has one owner and one place, which is recorded. */
  lemma OneOwnerOnePlace(layout: Layout, s: System, i: nat, d: nat, v: nat, j: nat, d': nat, v': nat)
    requires SystemOk(layout, s) && i < |s.contexts| && j < |s.contexts|
    requires d <= 4 && d' <= 4 && v < VPN_LIMIT && v' < VPN_LIMIT
    requires Reach(LinksOf(s.mem), s.contexts[i].root, d, v).Some?
    requires Reach(LinksOf(s.mem), s.contexts[i].root, d, v) == Reach(LinksOf(s.mem), s.contexts[j].root, d', v')
    ensures i == j && SamePath(d, v, d', v')
    ensures Reach(LinksOf(s.mem), s.contexts[i].root, d, v).value in s.contexts[i].pages
  {
    assert ContextAt(layout, s, i) && ContextAt(layout, s, j);
  }

  // ---- Runs ----

  ghost function Run(layout: Layout, s: System, ops: seq<Op>): System
    requires SystemOk(layout, s)
    decreases |ops|
  {
    if |ops| == 0 then s
    else
      StepKeepsOk(layout, s, ops[0]);
      Run(layout, Step(layout, s, ops[0]), ops[1..])
  }

  /** Over every interleaving, from a system without contexts on: ownership and tree shape hold. */
  lemma {:induction false} RunKeepsOk(layout: Layout, s: System, ops: seq<Op>)
    requires SystemOk(layout, s)
    ensures SystemOk(layout, Run(layout, s, ops))
    decreases |ops|
  {
    if |ops| > 0 {
      StepKeepsOk(layout, s, ops[0]);
      RunKeepsOk(layout, Step(layout, s, ops[0]), ops[1..]);
    }
  }

  lemma EmptySystemOk(layout: Layout, mem: Memory)
    requires AllocatorOk(layout, mem, 0)
    ensures SystemOk(layout, System(mem, 0, []))
  {
  }

  /** Whatever the others do, a context that does not act keeps every translation and every byte. */
  lemma {:induction false} RunIsolates(layout: Layout, s: System, ops: seq<Op>, j: nat, va: nat)
    requires SystemOk(layout, s) && j < |s.contexts|
    requires forall op | op in ops :: !ActsOn(op, j)
    ensures var s' := Run(layout, s, ops);
            && j < |s'.contexts| && s'.contexts[j] == s.contexts[j]
            && Translate(s'.mem, s.contexts[j].root, va) == Translate(s.mem, s.contexts[j].root, va)
            && UserByte(s'.mem, s.contexts[j].root, va) == UserByte(s.mem, s.contexts[j].root, va)
    decreases |ops|
  {
    if |ops| > 0 {
      StepKeepsOk(layout, s, ops[0]);
      StepIsolates(layout, s, ops[0], j, va);
      RunIsolates(layout, Step(layout, s, ops[0]), ops[1..], j, va);
    }
  }

  // ---- One context alone ----

  function Levels(i: nat, n: nat): seq<Op>
  {
    if n == 0 then [] else [Level(i)] + Levels(i, n - 1)
  }

  lemma RunUnfolds(layout: Layout, s: System, op: Op, rest: seq<Op>)
    requires SystemOk(layout, s)
    ensures SystemOk(layout, Step(layout, s, op))
    ensures Run(layout, s, [op] + rest) == Run(layout, Step(layout, s, op), rest)
  {
    StepKeepsOk(layout, s, op);
    assert ([op] + rest)[1..] == rest;
  }

  /** Context `i` stands in a walk, or in none, on a given memory. */
  ghost predicate Stands(layout: Layout, s: System, i: nat, vm: Vm, root: nat, walk: Option<Walk>)
  {
    SystemOk(layout, s) && i < |s.contexts| && View(s, i) == vm && s.contexts[i].root == root && s.contexts[i].walk == walk
  }

  lemma LevelStep(layout: Layout, s: System, i: nat, vm: Vm, root: nat, w: Walk) returns (s': System, vm': Vm, walk': Option<Walk>)
    requires Stands(layout, s, i, vm, root, Some(w))
    ensures VmOk(layout, vm, root) && WalkOk(vm, Context(root, vm.pages, Some(w))) && w.t.level <= LEVEL_MAX && w.t.table in vm.mem
    ensures s' == Step(layout, s, Level(i)) && (vm', walk') == AllocStep(layout, vm, root, w)
    ensures Stands(layout, s', i, vm', root, walk')
  {
    assert ContextAt(layout, s, i);
    TableRecorded(vm, root, w.t, w.address);
    StepKeepsOk(layout, s, Level(i));
    s' := Step(layout, s, Level(i));
    vm', walk' := AllocStep(layout, vm, root, w).0, AllocStep(layout, vm, root, w).1;
  }

  // What a level of the memory context's walk leaves: the memory, and the walk one level deeper or ended.
  ghost function LevelOutcome(layout: Layout, vm: Vm, root: nat, t: TableManager, address: nat): (Vm, Option<Walk>)
    requires UsableLayout(layout) && t.level <= LEVEL_MAX && t.table in vm.mem
  {
    if t.level < LEVEL_MAX then
      var (vm', r) := TableOutcome(layout, vm, root, t, address);
      (vm', if r.Ok? then Some(Walk(r.value, address, None)) else None)
    else (PageOutcome(layout, vm, root, t, address).0, None)
  }

  // One or two steps make a level.
  lemma StepsOfLevel(layout: Layout, vm: Vm, root: nat, t: TableManager, address: nat) returns (vm1: Vm, w1: Option<Walk>)
    requires VmOk(layout, vm, root) && OnPath(vm, root, t, address) && t.table in vm.mem
    ensures (vm1, w1) == AllocStep(layout, vm, root, Walk(t, address, None))
    ensures if w1.Some? && w1.value.taken.Some?
            then w1.value.t == t && t.table in vm1.mem && AllocStep(layout, vm1, root, w1.value) == LevelOutcome(layout, vm, root, t, address)
            else (vm1, w1) == LevelOutcome(layout, vm, root, t, address)
  {
    var step := AllocStep(layout, vm, root, Walk(t, address, None));
    vm1, w1 := step.0, step.1;
    if Reach(LinksOf(vm.mem), root, t.level + 1, address / PAGE_SIZE).None? {
      TakenLevel(layout, vm, root, t, address, vm1, w1);
    }
  }

  lemma TakenLevel(layout: Layout, vm: Vm, root: nat, t: TableManager, address: nat, vm1: Vm, w1: Option<Walk>)
    requires UsableLayout(layout) && t.level <= LEVEL_MAX && t.table in vm.mem
    requires Reach(LinksOf(vm.mem), root, t.level + 1, address / PAGE_SIZE).None?
    requires (vm1, w1) == AllocStep(layout, vm, root, Walk(t, address, None))
    ensures if w1.Some? then w1.value.t == t && w1.value.taken.Some? && t.table in vm1.mem && AllocStep(layout, vm1, root, w1.value) == LevelOutcome(layout, vm, root, t, address)
            else (vm1, w1) == LevelOutcome(layout, vm, root, t, address)
  {
  }

  lemma LevelsUnfold(layout: Layout, s: System, i: nat, n: nat)
    requires SystemOk(layout, s)
    ensures SystemOk(layout, Step(layout, s, Level(i))) && Run(layout, s, Levels(i, n + 1)) == Run(layout, Step(layout, s, Level(i)), Levels(i, n))
  {
    RunUnfolds(layout, s, Level(i), Levels(i, n));
  }

  lemma SoloLevel(layout: Layout, s: System, i: nat, vm: Vm, root: nat, t: TableManager, address: nat) returns (n: nat, s': System)
    requires Stands(layout, s, i, vm, root, Some(Walk(t, address, None)))
    ensures VmOk(layout, vm, root) && OnPath(vm, root, t, address) && t.table in vm.mem && 1 <= n <= 2
    ensures s' == Run(layout, s, Levels(i, n))
    ensures var (vm', walk') := LevelOutcome(layout, vm, root, t, address); Stands(layout, s', i, vm', root, walk')
  {
    var s1, vm1, w1 := LevelStep(layout, s, i, vm, root, Walk(t, address, None));
    var same1, same2 := StepsOfLevel(layout, vm, root, t, address);
    if w1.Some? && w1.value.taken.Some? {
      var s2, vm2, w2 := LevelStep(layout, s1, i, vm1, root, w1.value);
      LevelsUnfold(layout, s1, i, 0);
      LevelsUnfold(layout, s, i, 1);
      n, s' := 2, s2;
    } else {
      LevelsUnfold(layout, s, i, 0);
      n, s' := 1, s1;
    }
  }

  lemma {:induction false} RunConcat(layout: Layout, s: System, a: seq<Op>, b: seq<Op>)
    requires SystemOk(layout, s)
    ensures SystemOk(layout, Run(layout, s, a)) && Run(layout, s, a + b) == Run(layout, Run(layout, s, a), b)
    decreases |a|
  {
    RunKeepsOk(layout, s, a);
    if |a| == 0 {
      assert a + b == b;
    } else {
      assert (a + b)[1..] == a[1..] + b && (a + b)[0] == a[0];
      StepKeepsOk(layout, s, a[0]);
      RunConcat(layout, Step(layout, s, a[0]), a[1..], b);
    }
  }

  lemma {:induction false} LevelsConcat(i: nat, n: nat, m: nat)
    ensures Levels(i, n) + Levels(i, m) == Levels(i, n + m)
  {
    if n > 0 {
      LevelsConcat(i, n - 1, m);
      assert Levels(i, n) + Levels(i, m) == [Level(i)] + (Levels(i, n - 1) + Levels(i, m));
    } else {
      assert [] + Levels(i, m) == Levels(i, m);
    }
  }

  // The walk after a level: ended, or one level deeper with the same end.
  lemma AfterLevel(layout: Layout, vm: Vm, root: nat, t: TableManager, address: nat) returns (vm1: Vm, walk1: Option<Walk>)
    requires VmOk(layout, vm, root) && OnPath(vm, root, t, address) && t.table in vm.mem
    ensures (vm1, walk1) == LevelOutcome(layout, vm, root, t, address)
    ensures walk1.None? ==> AllocFrom(layout, vm, root, t, address).0 == vm1
    ensures walk1.Some? ==>
              && t.level < LEVEL_MAX && walk1.value == Walk(walk1.value.t, address, None) && walk1.value.t.level == t.level + 1
              && VmOk(layout, vm1, root) && OnPath(vm1, root, walk1.value.t, address)
              && AllocFrom(layout, vm, root, t, address) == AllocFrom(layout, vm1, root, walk1.value.t, address)
  {
    if t.level < LEVEL_MAX {
      TableStep(layout, vm, root, t, address);
    } else {
      PageStep(layout, vm, root, t, address);
    }
    vm1, walk1 := LevelOutcome(layout, vm, root, t, address).0, LevelOutcome(layout, vm, root, t, address).1;
  }

  lemma {:induction false} SoloWalk(layout: Layout, s: System, i: nat, vm: Vm, root: nat, t: TableManager, address: nat) returns (n: nat, s': System)
    requires Stands(layout, s, i, vm, root, Some(Walk(t, address, None))) && t.level <= LEVEL_MAX
    ensures VmOk(layout, vm, root) && OnPath(vm, root, t, address) && n <= 2 * (LEVEL_MAX + 1 - t.level)
    ensures s' == Run(layout, s, Levels(i, n))
    ensures Stands(layout, s', i, AllocFrom(layout, vm, root, t, address).0, root, None)
    decreases LEVEL_MAX - t.level
  {
    var k, s1 := SoloLevel(layout, s, i, vm, root, t, address);
    var vm1, walk1 := AfterLevel(layout, vm, root, t, address);
    n, s' := k, s1;
    if walk1.Some? {
      var m, s2 := SoloWalk(layout, s1, i, vm1, root, walk1.value.t, address);
      RunConcat(layout, s, Levels(i, k), Levels(i, m));
      LevelsConcat(i, k, m);
      n, s' := k + m, s2;
    }
  }

  /** A call of `alloc_page` in one context with no step of another in between: its beginning and at most eight
      further steps leave the context as the memory context's own walk does, with its lock released. */
  lemma AloneIsAllocPage(layout: Layout, s: System, i: nat, address: nat) returns (n: nat)
    requires SystemOk(layout, s) && i < |s.contexts| && s.contexts[i].walk.None?
    ensures VmOk(layout, View(s, i), s.contexts[i].root) && n <= 8
    ensures var s' := Run(layout, s, [Begin(i, address)] + Levels(i, n));
            Stands(layout, s', i, AllocPage(layout, View(s, i), s.contexts[i].root, address).0, s.contexts[i].root, None)
  {
    assert ContextAt(layout, s, i);
    var vm, root := View(s, i), s.contexts[i].root;
    var begun := Step(layout, s, Begin(i, address));
    RunUnfolds(layout, s, Begin(i, address), []);
    n := 0;
    if address < VA_LIMIT {
      AtRoot(vm, root, address);
      var t := TableManager(root, LEVEL_ROOT, 0);
      assert Stands(layout, begun, i, vm, root, Some(Walk(t, address, None)));
      var k, s' := SoloWalk(layout, begun, i, vm, root, t, address);
      RunUnfolds(layout, s, Begin(i, address), Levels(i, k));
      n := k;
    }
  }

  /** Creation succeeds exactly while a usable page is left, and the new context translates nothing. */
  lemma CreateMeaning(layout: Layout, s: System, va: nat)
    requires SystemOk(layout, s)
    ensures var s' := Step(layout, s, Create);
            if UsableFrom(layout, s.cursor) == [] then s'.contexts == s.contexts && s'.mem == s.mem
            else
              && |s'.contexts| == |s.contexts| + 1 && s'.contexts[..|s.contexts|] == s.contexts
              && var c := s'.contexts[|s.contexts|];
                 c == Context(UsableFrom(layout, s.cursor)[0], [c.root], None) && Translate(s'.mem, c.root, va).None?
  {
    AllocPopsUsable(layout, s.cursor);
    if UsableFrom(layout, s.cursor) != [] {
      var s' := Step(layout, s, Create);
      var c := s'.contexts[|s.contexts|];
      NewContextIsEmpty(layout, s.mem, s.cursor);
      CreateKeepsOk(layout, s);
      assert ContextAt(layout, s', |s.contexts|);
      TranslateIsPageMap(s'.mem, c.root, c.pages, va);
    }
  }

  /** `alloc_page_unmapped` in an idle context records the next usable page, if there is one, and maps nothing. */
  lemma UnmappedMeaning(layout: Layout, s: System, i: nat, va: nat)
    requires SystemOk(layout, s) && i < |s.contexts| && s.contexts[i].walk.None?
    ensures var s', c := Step(layout, s, Unmapped(i)), s.contexts[i];
            && s'.contexts == s.contexts[i := c.(pages := if UsableFrom(layout, s.cursor) == [] then c.pages
                                                          else c.pages + [UsableFrom(layout, s.cursor)[0]])]
            && Translate(s'.mem, c.root, va) == Translate(s.mem, c.root, va)
  {
    AllocPopsUsable(layout, s.cursor);
    var s', c := Step(layout, s, Unmapped(i)), s.contexts[i];
    assert ContextAt(layout, s, i);
    UnmappedOk(layout, View(s, i), c);
    TranslateIsFrame(s.mem, c.root, c.pages, va);
    TranslateIsFrame(s'.mem, c.root, s'.contexts[i].pages, va);
  }

  /** A user store in a context sets exactly its bytes there, or nothing if some address is not mapped. */
  lemma StoreMeaning(layout: Layout, s: System, i: nat, dst: nat, bytes: seq<Byte>, va: nat)
    requires SystemOk(layout, s) && i < |s.contexts|
    ensures var s', root := Step(layout, s, Store(i, dst, bytes)), s.contexts[i].root;
            && s'.contexts == s.contexts && s'.cursor == s.cursor
            && UserByte(s'.mem, root, va) ==
               if Mapped(s.mem, root, dst, |bytes|) && dst <= va < dst + |bytes| then Some(bytes[va - dst]) else UserByte(s.mem, root, va)
  {
    assert ContextAt(layout, s, i);
    CopyToUserMeaning(s.mem, s.contexts[i].root, s.contexts[i].pages, dst, bytes, va);
    assert s.contexts[i := s.contexts[i]] == s.contexts;
  }
}
