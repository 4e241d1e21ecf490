/** The address space of one context (kernel/src/memory/aarch64/memory_context.rs) on values: the walk
    that allocates, its invariant, and what it does to the page map. */
module AddressSpace {
  import opened Bits
  import opened Wrappers
  import opened PhysicalMemory
  import opened PageTable
  import opened PageAllocator
  import opened RadixTree
  import opened Translation

  /** What one context's operations touch: RAM, the shared allocator's cursor, its recorded pages. */
  datatype Vm = Vm(mem: Memory, cursor: nat, pages: seq<nat>)

  datatype TableManager = TableManager(table: nat, level: nat, start: nat)

  ghost predicate UsableLayout(layout: Layout)
  {
    ValidLayout(layout) && layout.capacity < U64
  }

  // ---- The operations on values ----

  ghost function AllocRaw(layout: Layout, s: Vm): (Vm, Result<nat>)
    requires UsableLayout(layout)
  {
    if Scan(layout, s.cursor).0.None? then (s.(cursor := Scan(layout, s.cursor).1), Err)
    else
      var page := Scan(layout, s.cursor).0.value;
      (Vm(s.mem[page := ZeroPage()], Scan(layout, s.cursor).1, s.pages + [page]), Ok(page))
  }

  lemma AllocRawFits(layout: Layout, s: Vm)
    requires UsableLayout(layout)
    ensures var (s', r) := AllocRaw(layout, s);
            && s.cursor < s'.cursor
            && s'.cursor % PAGE_SIZE == s.cursor % PAGE_SIZE
            && (r.Ok? ==>
                  && s.cursor <= r.value
                  && r.value % PAGE_SIZE == s.cursor % PAGE_SIZE
                  && r.value + PAGE_SIZE == s'.cursor
                  && s'.cursor <= layout.capacity)
  {
    AllocPopsUsable(layout, s.cursor);
    UsableIsExact(layout, s.cursor);
    if AllocRaw(layout, s).1.Ok? {
      assert UsableFrom(layout, s.cursor)[0] in UsableFrom(layout, s.cursor);
    }
  }

  function WithLink(s: Vm, table: nat, slot: nat, row: nat): Vm
    requires table in s.mem && slot < ROW_COUNT
  {
    s.(mem := s.mem[table := WithRow(s.mem[table], slot, row)])
  }

  // ---- Invariants ----

  predicate InRam(layout: Layout, page: nat)
  {
    page % PAGE_SIZE == 0 && page + PAGE_SIZE <= layout.capacity
  }

  /** No page is recorded twice. */
  predicate Distinct(pages: seq<nat>)
  {
    |pages| == 0 || (pages[|pages| - 1] !in pages[..|pages| - 1] && Distinct(pages[..|pages| - 1]))
  }

  /** The invariant that a context keeps about itself and the shared allocator. */
  ghost predicate VmOk(layout: Layout, s: Vm, root: nat)
  {
    && UsableLayout(layout)
    && s.cursor % PAGE_SIZE == 0
    && (forall p: nat {:trigger InRam(layout, p)} | InRam(layout, p) :: p in s.mem)
    && (forall p | p in s.pages :: p % PAGE_SIZE == 0 && p + PAGE_SIZE <= s.cursor)
    && Distinct(s.pages)
    && ContextOk(s.mem, root, s.pages)
  }

  /** The first address under the table at `level` on the path of `address`. */
  function TableBase(address: nat, level: nat): nat
  {
    if level == 0 then address - address % 0x1_0000_0000_0000
    else if level == 1 then address - address % 0x80_0000_0000
    else if level == 2 then address - address % 0x4000_0000
    else address - address % 0x20_0000
  }

  /** The walk of `address` stands at `t`. */
  ghost predicate OnPath(s: Vm, root: nat, t: TableManager, address: nat)
  {
    && address < VA_LIMIT
    && t.level <= LEVEL_MAX
    && t.start == TableBase(address, t.level)
    && Reach(LinksOf(s.mem), root, t.level, address / PAGE_SIZE) == Some(t.table)
  }

  /** What a step may do: record fresh pages and write tables; frames and foreign pages stay. */
  ghost predicate Grew(s: Vm, s': Vm, root: nat)
  {
    && s.pages <= s'.pages
    && s.cursor <= s'.cursor
    && (forall i | |s.pages| <= i < |s'.pages| :: s.cursor <= s'.pages[i])
    && (forall p | p in s.mem :: p in s'.mem)
    && (forall p | p in s.mem && p < s.cursor && p !in s.pages :: s'.mem[p] == s.mem[p])
    && FramesKept(s.mem, s'.mem, root)
  }

  /** The frame behind a page number keeps its bytes. */
  ghost predicate FrameKept(mem: Memory, mem': Memory, frame: Option<nat>)
  {
    frame.Some? && frame.value in mem ==> frame.value in mem' && mem'[frame.value] == mem[frame.value]
  }

  ghost predicate FramesKept(mem: Memory, mem': Memory, root: nat)
  {
    forall v: nat | v < VPN_LIMIT :: FrameKept(mem, mem', Reach(LinksOf(mem), root, 4, v))
  }

  // ---- Table arithmetic on the path ----

  lemma PathSlot(t: TableManager, address: nat)
    requires t.level <= LEVEL_MAX && address < VA_LIMIT && t.start == TableBase(address, t.level)
    ensures RowByAddress(t.start, t.level, address) == Some(Slot(address / PAGE_SIZE, t.level))
  {
    Lengths();
    SlotsOfAddress(address);
    if t.level == 0 {
      Digit39(address);
    } else if t.level == 1 {
      Digit30(address);
    } else if t.level == 2 {
      Digit21(address);
    } else {
      Digit12(address);
    }
  }

  lemma PathStart(t: TableManager, address: nat)
    requires t.level < LEVEL_MAX && address < VA_LIMIT && t.start == TableBase(address, t.level)
    ensures RowStart(t.start, t.level, Slot(address / PAGE_SIZE, t.level)) == TableBase(address, t.level + 1)
  {
    Lengths();
    SlotsOfAddress(address);
    if t.level == 0 {
      Digit39(address);
    } else if t.level == 1 {
      Digit30(address);
    } else {
      Digit21(address);
    }
  }

  // The base-512 digits of an address.
  lemma Digit39(a: nat)
    ensures a / 0x80_0000_0000 % 512 == a % 0x1_0000_0000_0000 / 0x80_0000_0000
    ensures a % 0x1_0000_0000_0000 == 0x80_0000_0000 * (a / 0x80_0000_0000 % 512) + a % 0x80_0000_0000
  {
  }

  lemma Digit30(a: nat)
    ensures a / 0x4000_0000 % 512 == a % 0x80_0000_0000 / 0x4000_0000
    ensures a % 0x80_0000_0000 == 0x4000_0000 * (a / 0x4000_0000 % 512) + a % 0x4000_0000
  {
  }

  lemma Digit21(a: nat)
    ensures a / 0x20_0000 % 512 == a % 0x4000_0000 / 0x20_0000
    ensures a % 0x4000_0000 == 0x20_0000 * (a / 0x20_0000 % 512) + a % 0x20_0000
  {
  }

  lemma Digit12(a: nat)
    ensures a / 0x1000 % 512 == a % 0x20_0000 / 0x1000
    ensures a % 0x20_0000 == 0x1000 * (a / 0x1000 % 512) + a % 0x1000
  {
  }

  // ---- One step ----

  /** Taking a page from the allocator leaves the tree alone. */
  lemma AllocRawKeeps(layout: Layout, s: Vm, root: nat)
    requires VmOk(layout, s, root)
    ensures var (s', r) := AllocRaw(layout, s);
            && VmOk(layout, s', root)
            && Grew(s, s', root)
            && (forall d: nat, v: nat | d <= 4 && v < VPN_LIMIT ::
                  Reach(LinksOf(s'.mem), root, d, v) == Reach(LinksOf(s.mem), root, d, v))
            && (r.Err? ==> s'.mem == s.mem && s'.pages == s.pages)
            && (r.Ok? ==>
                  && s.cursor <= r.value
                  && r.value !in s.pages
                  && s'.pages == s.pages + [r.value]
                  && s'.mem == s.mem[r.value := ZeroPage()]
                  && r.value % PAGE_SIZE == 0
                  && r.value < U64
                  && ContextOk(s'.mem, root, s.pages))
  {
    AllocRawFits(layout, s);
    var (s', r) := AllocRaw(layout, s);
    if r.Ok? {
      assert InRam(layout, r.value) && r.value !in s.pages;
      assert s'.pages[..|s.pages|] == s.pages;
      ContextFrame(s.mem, s'.mem, root, s.pages);
    }
  }

  /** Linking the page just taken from the allocator into a row of the tree. */
  lemma LinkStep(layout: Layout, s: Vm, root: nat, d: nat, vpn: nat, table: nat)
    requires VmOk(layout, s, root) && d < 4 && vpn < VPN_LIMIT
    requires Reach(LinksOf(s.mem), root, d, vpn) == Some(table)
    requires AllocRaw(layout, s).1.Ok? && Fits(AllocRaw(layout, s).1.value)
    ensures var (s1, r) := AllocRaw(layout, s);
            && table in s1.mem
            && var s' := WithLink(s1, table, Slot(vpn, d), LinkRow(d, r.value));
               && VmOk(layout, s', root)
               && Grew(s, s', root)
               && (forall d': nat, v: nat | d' <= 4 && v < VPN_LIMIT ::
                     Reach(LinksOf(s'.mem), root, d', v) == ReachAfter(LinksOf(s.mem), root, d, vpn, r.value, d', v))
               && s'.mem[r.value] == ZeroPage()
  {
    AllocRawKeeps(layout, s, root);
    var (s1, r) := AllocRaw(layout, s);
    assert table in s.pages;
    LinkKeepsContextOk(s1.mem, root, s.pages, d, vpn, table, r.value);
    var s' := WithLink(s1, table, Slot(vpn, d), LinkRow(d, r.value));
    assert s'.mem == Linked(s1.mem, table, d, vpn, r.value);
    TableWriteKeepsFrames(s, root, s1.mem, s'.mem, d, vpn, table);
  }

  lemma TableWriteKeepsFrames(s: Vm, root: nat, mem1: Memory, mem2: Memory, d: nat, vpn: nat, table: nat)
    requires ContextOk(s.mem, root, s.pages) && d < 4 && vpn < VPN_LIMIT
    requires Reach(LinksOf(s.mem), root, d, vpn) == Some(table)
    requires FramesKept(s.mem, mem1, root)
    requires forall p | p in mem1 && p != table :: p in mem2 && mem2[p] == mem1[p]
    ensures FramesKept(s.mem, mem2, root)
  {
    forall v: nat | v < VPN_LIMIT
      ensures FrameKept(s.mem, mem2, Reach(LinksOf(s.mem), root, 4, v))
    {
      assert FrameKept(s.mem, mem1, Reach(LinksOf(s.mem), root, 4, v));
      assert !SamePath(4, v, d, vpn);
    }
  }

  /** The row the code looks at tells it whether the path goes on, and where. */
  lemma SeesChild(mem: Memory, root: nat, t: TableManager, vpn: nat)
    requires RowsOk(mem, root) && t.level <= LEVEL_MAX && vpn < VPN_LIMIT
    requires Reach(LinksOf(mem), root, t.level, vpn) == Some(t.table)
    ensures t.table in mem
    ensures var row := Row(mem[t.table], Slot(vpn, t.level));
            var next := Reach(LinksOf(mem), root, t.level + 1, vpn);
            && (t.level < 3 ==> (TypeOf(t.level, row) == Some(TableType) <==> next.Some?))
            && (t.level < 3 && next.Some? ==> TableAddress(row) == next.value)
            && (t.level == 3 ==> (TypeOf(t.level, row) == Some(PageType) <==> next.Some?))
            && (t.level == 3 && next.Some? ==> PageAddress(row) == next.value)
  {
    NextReach(mem, root, t.level, vpn, t.table);
    SeesRow(Row(mem[t.table], Slot(vpn, t.level)), t.level);
  }

  lemma SeesRow(row: nat, level: nat)
    requires level <= 3 && (row == 0 || row == LinkRow(level, OutputAddress(row)))
    ensures level < 3 ==> (TypeOf(level, row) == Some(TableType) <==> row != 0)
    ensures level == 3 ==> (TypeOf(level, row) == Some(PageType) <==> row != 0)
    ensures level < 3 && row != 0 ==> TableAddress(row) == OutputAddress(row)
    ensures level == 3 && row != 0 ==> PageAddress(row) == OutputAddress(row)
  {
    TypeField(row);
    if row != 0 {
      LinkRowIsLink(row, level);
      if level < 3 {
        TableDescriptorMeaning(OutputAddress(row));
      } else {
        UserPageRow(OutputAddress(row));
      }
    }
  }

  /** One level of the walk in terms of paths: follow the link, or attach a fresh table. */
  ghost function TableOutcome(layout: Layout, s: Vm, root: nat, t: TableManager, address: nat): (Vm, Result<TableManager>)
    requires UsableLayout(layout) && t.level < LEVEL_MAX && t.table in s.mem
  {
    var vpn := address / PAGE_SIZE;
    var next := Reach(LinksOf(s.mem), root, t.level + 1, vpn);
    var start := TableBase(address, t.level + 1);
    var (s1, a) := AllocRaw(layout, s);
    if next.Some? then (s, Ok(TableManager(next.value, t.level + 1, start)))
    else if a.Ok? && Fits(a.value) then
      (WithLink(s1, t.table, Slot(vpn, t.level), LinkRow(t.level, a.value)), Ok(TableManager(a.value, t.level + 1, start)))
    else (s1, Err)
  }

  /** The last level in terms of paths: the frame that is there, or a fresh one. */
  ghost function PageOutcome(layout: Layout, s: Vm, root: nat, t: TableManager, address: nat): (Vm, Result<nat>)
    requires UsableLayout(layout) && t.level == LEVEL_MAX && t.table in s.mem
  {
    var vpn := address / PAGE_SIZE;
    var next := Reach(LinksOf(s.mem), root, 4, vpn);
    var (s1, a) := AllocRaw(layout, s);
    if next.Some? then (s, Ok(next.value))
    else if a.Ok? && Fits(a.value) then (WithLink(s1, t.table, Slot(vpn, 3), LinkRow(3, a.value)), Ok(a.value))
    else (s1, Err)
  }

  ghost predicate SameFrames(mem: Memory, mem': Memory, root: nat)
  {
    forall v: nat | v < VPN_LIMIT :: Reach(LinksOf(mem'), root, 4, v) == Reach(LinksOf(mem), root, 4, v)
  }

  // The case of an empty row that gets a new table.
  lemma NewTableStep(layout: Layout, s: Vm, root: nat, t: TableManager, address: nat)
    requires VmOk(layout, s, root) && OnPath(s, root, t, address) && t.level < LEVEL_MAX && t.table in s.mem
    requires Reach(LinksOf(s.mem), root, t.level + 1, address / PAGE_SIZE).None?
    requires AllocRaw(layout, s).1.Ok? && Fits(AllocRaw(layout, s).1.value)
    ensures var (s', r) := TableOutcome(layout, s, root, t, address);
            && VmOk(layout, s', root)
            && Grew(s, s', root)
            && SameFrames(s.mem, s'.mem, root)
            && r.Ok? && OnPath(s', root, r.value, address) && r.value.level == t.level + 1
  {
    var vpn := address / PAGE_SIZE;
    var page := AllocRaw(layout, s).1.value;
    LinkStep(layout, s, root, t.level, vpn, t.table);
    var s' := TableOutcome(layout, s, root, t, address).0;
    TableLinkKeepsFrames(LinksOf(s.mem), LinksOf(s'.mem), root, t.level, vpn, page);
  }

  /** A level of the walk: the invariant holds, no translation changes, and on success the walk
      stands one level deeper. */
  lemma TableStep(layout: Layout, s: Vm, root: nat, t: TableManager, address: nat)
    requires VmOk(layout, s, root) && OnPath(s, root, t, address) && t.level < LEVEL_MAX
    ensures t.table in s.mem
    ensures var (s', r) := TableOutcome(layout, s, root, t, address);
            && VmOk(layout, s', root)
            && Grew(s, s', root)
            && SameFrames(s.mem, s'.mem, root)
            && (Reach(LinksOf(s.mem), root, t.level + 1, address / PAGE_SIZE).Some? ==> s' == s && r.Ok?)
            && (r.Ok? ==> OnPath(s', root, r.value, address) && r.value.level == t.level + 1)
  {
    assert t.table in s.pages;
    if Reach(LinksOf(s.mem), root, t.level + 1, address / PAGE_SIZE).None? {
      if AllocRaw(layout, s).1.Ok? && Fits(AllocRaw(layout, s).1.value) {
        NewTableStep(layout, s, root, t, address);
      } else {
        AllocRawKeeps(layout, s, root);
      }
    }
  }

  /** The last level: an existing frame is returned and nothing changes; otherwise exactly one
      translation is added, to a fresh zeroed page; on failure none changes. */
  lemma PageStep(layout: Layout, s: Vm, root: nat, t: TableManager, address: nat)
    requires VmOk(layout, s, root) && OnPath(s, root, t, address) && t.level == LEVEL_MAX
    ensures t.table in s.mem
    ensures var (s', r) := PageOutcome(layout, s, root, t, address);
            && VmOk(layout, s', root)
            && Grew(s, s', root)
            && Inserted(s, s', root, address / PAGE_SIZE, r)
  {
    assert t.table in s.pages;
    var vpn := address / PAGE_SIZE;
    if Reach(LinksOf(s.mem), root, 4, vpn).None? {
      var a := AllocRaw(layout, s).1;
      if a.Ok? && Fits(a.value) {
        AllocRawFits(layout, s);
        LinkStep(layout, s, root, 3, vpn, t.table);
      } else {
        AllocRawKeeps(layout, s, root);
      }
    }
  }

  /** Map insertion, seen through the depth-4 paths. */
  ghost predicate Inserted(s: Vm, s': Vm, root: nat, vpn: nat, r: Result<nat>)
  {
    var was := Reach(LinksOf(s.mem), root, 4, vpn);
    && (was.Some? ==> s' == s && r == Ok(was.value))
    && (was.None? && r.Ok? ==>
          && s.cursor <= r.value
          && r.value in s'.mem && s'.mem[r.value] == ZeroPage()
          && forall v: nat | v < VPN_LIMIT ::
               Reach(LinksOf(s'.mem), root, 4, v) == if v == vpn then Some(r.value) else Reach(LinksOf(s.mem), root, 4, v))
    && (r.Err? ==> SameFrames(s.mem, s'.mem, root))
  }

  // ---- The whole operation ----

  ghost function AllocFrom(layout: Layout, s: Vm, root: nat, t: TableManager, address: nat): (Vm, Result<nat>)
    requires VmOk(layout, s, root) && OnPath(s, root, t, address)
    decreases LEVEL_MAX - t.level
  {
    if t.level < LEVEL_MAX then
      TableStep(layout, s, root, t, address);
      var (s', r) := TableOutcome(layout, s, root, t, address);
      if r.Err? then (s', Err) else AllocFrom(layout, s', root, r.value, address)
    else
      PageStep(layout, s, root, t, address);
      PageOutcome(layout, s, root, t, address)
  }

  lemma AtRoot(s: Vm, root: nat, address: nat)
    requires address < VA_LIMIT
    ensures OnPath(s, root, TableManager(root, LEVEL_ROOT, 0), address)
  {
  }

  /** `alloc_page`: an address beyond 48 bits has no row in the root table. */
  ghost function AllocPage(layout: Layout, s: Vm, root: nat, address: nat): (Vm, Result<nat>)
    requires VmOk(layout, s, root)
  {
    if address >= VA_LIMIT then (s, Err)
    else
      AtRoot(s, root, address);
      AllocFrom(layout, s, root, TableManager(root, LEVEL_ROOT, 0), address)
  }

  lemma GrewTransitive(s: Vm, s1: Vm, s2: Vm, root: nat)
    requires Grew(s, s1, root) && Grew(s1, s2, root) && SameFrames(s.mem, s1.mem, root)
    ensures Grew(s, s2, root)
  {
    forall i | |s.pages| <= i < |s2.pages|
      ensures s.cursor <= s2.pages[i]
    {
      if i < |s1.pages| {
        assert s2.pages[i] == s1.pages[i];
      }
    }
    forall v: nat | v < VPN_LIMIT
      ensures FrameKept(s.mem, s2.mem, Reach(LinksOf(s.mem), root, 4, v))
    {
      assert FrameKept(s.mem, s1.mem, Reach(LinksOf(s.mem), root, 4, v));
      assert FrameKept(s1.mem, s2.mem, Reach(LinksOf(s1.mem), root, 4, v));
    }
  }

  lemma {:induction false} AllocFromRefines(layout: Layout, s: Vm, root: nat, t: TableManager, address: nat)
    requires VmOk(layout, s, root) && OnPath(s, root, t, address)
    ensures var (s', r) := AllocFrom(layout, s, root, t, address);
            VmOk(layout, s', root) && Grew(s, s', root) && Inserted(s, s', root, address / PAGE_SIZE, r)
    decreases LEVEL_MAX - t.level
  {
    if t.level < LEVEL_MAX {
      TableStep(layout, s, root, t, address);
      if Reach(LinksOf(s.mem), root, t.level + 1, address / PAGE_SIZE).None? {
        NoneStaysNone(LinksOf(s.mem), root, t.level + 1, address / PAGE_SIZE);
      }
      var (s1, r1) := TableOutcome(layout, s, root, t, address);
      if r1.Ok? {
        AllocFromRefines(layout, s1, root, r1.value, address);
        GrewTransitive(s, s1, AllocFrom(layout, s1, root, r1.value, address).0, root);
      }
    } else {
      PageStep(layout, s, root, t, address);
    }
  }

  lemma InsertedIsMapInsertion(s: Vm, s': Vm, root: nat, vpn: nat, r: Result<nat>)
    requires Inserted(s, s', root, vpn, r) && vpn < VPN_LIMIT
    ensures vpn in PageMap(s.mem, root) ==> s' == s && r == Ok(PageMap(s.mem, root)[vpn])
    ensures r.Err? ==> PageMap(s'.mem, root) == PageMap(s.mem, root)
    ensures r.Ok? && vpn !in PageMap(s.mem, root) ==>
              && PageMap(s'.mem, root) == PageMap(s.mem, root)[vpn := r.value]
              && s.cursor <= r.value && r.value in s'.mem && s'.mem[r.value] == ZeroPage()
  {
    if r.Err? {
      SamePageMap(LinksOf(s.mem), LinksOf(s'.mem), root);
    } else if Reach(LinksOf(s.mem), root, 4, vpn).None? {
      PageMapInsertion(LinksOf(s.mem), LinksOf(s'.mem), root, vpn, r.value);
    }
  }

  /** `alloc_page` refines insertion into a plain map from virtual page to frame. */
  lemma AllocPageRefinesInsert(layout: Layout, s: Vm, root: nat, address: nat)
    requires VmOk(layout, s, root)
    ensures var (s', r) := AllocPage(layout, s, root, address);
            var vpn := address / PAGE_SIZE;
            && VmOk(layout, s', root)
            && Grew(s, s', root)
            && (address >= VA_LIMIT ==> s' == s && r == Err)
            && (vpn in PageMap(s.mem, root) ==> s' == s && r == Ok(PageMap(s.mem, root)[vpn]))
            && (r.Err? ==> PageMap(s'.mem, root) == PageMap(s.mem, root))
            && (r.Ok? && vpn !in PageMap(s.mem, root) ==>
                  && PageMap(s'.mem, root) == PageMap(s.mem, root)[vpn := r.value]
                  && r.value !in s.pages && s.cursor <= r.value
                  && r.value in s'.mem && s'.mem[r.value] == ZeroPage())
  {
    if address < VA_LIMIT {
      AtRoot(s, root, address);
      AllocFromRefines(layout, s, root, TableManager(root, LEVEL_ROOT, 0), address);
      var (s', r) := AllocPage(layout, s, root, address);
      InsertedIsMapInsertion(s, s', root, address / PAGE_SIZE, r);
    } else {
      assert address / PAGE_SIZE >= VPN_LIMIT;
    }
  }

  // ---- When it fails ----

  /** How many pages the path of `vpn` still lacks below depth `d`. */
  ghost function Needed(links: Links, root: nat, d: nat, vpn: nat): nat
    requires d <= 4
    decreases 4 - d
  {
    if d == 4 then 0
    else if Reach(links, root, d + 1, vpn).None? then 4 - d
    else Needed(links, root, d + 1, vpn)
  }

  lemma NeededAfterLink(links: Links, links': Links, root: nat, d: nat, vpn: nat, page: nat)
    requires d < 4 && vpn < VPN_LIMIT && Reach(links, root, d + 1, vpn).None?
    requires forall d': nat, v: nat | d' <= 4 && v < VPN_LIMIT :: Reach(links', root, d', v) == ReachAfter(links, root, d, vpn, page, d', v)
    ensures Needed(links', root, d + 1, vpn) == 4 - d - 1
  {
    if d < 3 {
      assert Reach(links', root, d + 2, vpn) == ReachAfter(links, root, d, vpn, page, d + 2, vpn);
    }
  }

  // One level consumes one usable page exactly when its row is empty.
  lemma NewTableConsumes(layout: Layout, s: Vm, root: nat, d: nat, vpn: nat, table: nat)
    requires VmOk(layout, s, root) && d < 4 && vpn < VPN_LIMIT && layout.capacity <= VA_LIMIT
    requires Reach(LinksOf(s.mem), root, d, vpn) == Some(table) && table in s.mem
    requires Reach(LinksOf(s.mem), root, d + 1, vpn).None? && AllocRaw(layout, s).1.Ok?
    ensures var (s1, a) := AllocRaw(layout, s);
            && Fits(a.value)
            && |UsableFrom(layout, s1.cursor)| == |UsableFrom(layout, s.cursor)| - 1
            && Needed(LinksOf(WithLink(s1, table, Slot(vpn, d), LinkRow(d, a.value)).mem), root, d + 1, vpn) == 4 - d - 1
  {
    AllocRawFits(layout, s);
    AllocPopsUsable(layout, s.cursor);
    LinkStep(layout, s, root, d, vpn, table);
    var (s1, a) := AllocRaw(layout, s);
    var s2 := WithLink(s1, table, Slot(vpn, d), LinkRow(d, a.value));
    NeededAfterLink(LinksOf(s.mem), LinksOf(s2.mem), root, d, vpn, a.value);
  }

  lemma TableConsumes(layout: Layout, s: Vm, root: nat, t: TableManager, address: nat)
    requires VmOk(layout, s, root) && OnPath(s, root, t, address) && t.level < LEVEL_MAX && layout.capacity <= VA_LIMIT
    requires t.table in s.mem
    ensures var (s', r) := TableOutcome(layout, s, root, t, address);
            var vpn := address / PAGE_SIZE;
            && (r.Err? <==> UsableFrom(layout, s.cursor) == [] && Reach(LinksOf(s.mem), root, t.level + 1, vpn).None?)
            && (r.Ok? ==>
                  |UsableFrom(layout, s'.cursor)| - Needed(LinksOf(s'.mem), root, t.level + 1, vpn) ==
                  |UsableFrom(layout, s.cursor)| - Needed(LinksOf(s.mem), root, t.level, vpn))
  {
    AllocPopsUsable(layout, s.cursor);
    if Reach(LinksOf(s.mem), root, t.level + 1, address / PAGE_SIZE).None? && AllocRaw(layout, s).1.Ok? {
      NewTableConsumes(layout, s, root, t.level, address / PAGE_SIZE, t.table);
    }
  }

  // Usable pages minus missing pages is the same before and after a level.
  lemma TableStepBalance(layout: Layout, s: Vm, root: nat, t: TableManager, address: nat) returns (s': Vm, r: Result<TableManager>)
    requires VmOk(layout, s, root) && OnPath(s, root, t, address) && t.level < LEVEL_MAX && layout.capacity <= VA_LIMIT
    ensures VmOk(layout, s', root)
    ensures r.Err? ==> |UsableFrom(layout, s.cursor)| < Needed(LinksOf(s.mem), root, t.level, address / PAGE_SIZE)
    ensures r.Err? ==> AllocFrom(layout, s, root, t, address) == (s', Err)
    ensures r.Ok? ==>
              && OnPath(s', root, r.value, address) && r.value.level == t.level + 1
              && AllocFrom(layout, s, root, t, address) == AllocFrom(layout, s', root, r.value, address)
              && |UsableFrom(layout, s'.cursor)| - Needed(LinksOf(s'.mem), root, t.level + 1, address / PAGE_SIZE) ==
                 |UsableFrom(layout, s.cursor)| - Needed(LinksOf(s.mem), root, t.level, address / PAGE_SIZE)
  {
    TableStep(layout, s, root, t, address);
    TableConsumes(layout, s, root, t, address);
    s', r := TableOutcome(layout, s, root, t, address).0, TableOutcome(layout, s, root, t, address).1;
  }

  lemma PageBalance(layout: Layout, s: Vm, root: nat, t: TableManager, address: nat)
    requires VmOk(layout, s, root) && OnPath(s, root, t, address) && t.level == LEVEL_MAX && layout.capacity <= VA_LIMIT
    ensures AllocFrom(layout, s, root, t, address).1.Err? <==>
            |UsableFrom(layout, s.cursor)| < Needed(LinksOf(s.mem), root, 3, address / PAGE_SIZE)
  {
    AllocRawFits(layout, s);
    AllocPopsUsable(layout, s.cursor);
    PageStep(layout, s, root, t, address);
    assert Needed(LinksOf(s.mem), root, 4, address / PAGE_SIZE) == 0;
  }

  /** With 48-bit RAM the walk fails exactly when fewer usable pages remain than the path lacks. */
  lemma {:induction false} AllocFromFailsExactly(layout: Layout, s: Vm, root: nat, t: TableManager, address: nat)
    requires VmOk(layout, s, root) && OnPath(s, root, t, address) && layout.capacity <= VA_LIMIT
    ensures AllocFrom(layout, s, root, t, address).1.Err? <==>
            |UsableFrom(layout, s.cursor)| < Needed(LinksOf(s.mem), root, t.level, address / PAGE_SIZE)
    decreases LEVEL_MAX - t.level
  {
    if t.level < LEVEL_MAX {
      var s', r := TableStepBalance(layout, s, root, t, address);
      if r.Ok? {
        AllocFromFailsExactly(layout, s', root, r.value, address);
      }
    } else {
      PageBalance(layout, s, root, t, address);
    }
  }

  lemma AllocPageFailsExactly(layout: Layout, s: Vm, root: nat, address: nat)
    requires VmOk(layout, s, root) && layout.capacity <= VA_LIMIT
    ensures AllocPage(layout, s, root, address).1.Err? <==>
            || address >= VA_LIMIT
            || |UsableFrom(layout, s.cursor)| < Needed(LinksOf(s.mem), root, 0, address / PAGE_SIZE)
  {
    if address < VA_LIMIT {
      AtRoot(s, root, address);
      AllocFromFailsExactly(layout, s, root, TableManager(root, LEVEL_ROOT, 0), address);
    }
  }

  // ---- Creation ----

  /** The allocator and RAM alone. */
  ghost predicate AllocatorOk(layout: Layout, mem: Memory, cursor: nat)
  {
    && UsableLayout(layout)
    && cursor % PAGE_SIZE == 0
    && (forall p: nat {:trigger InRam(layout, p)} | InRam(layout, p) :: p in mem)
  }

  /** A zeroed root is an empty address space. */
  lemma NewContextIsEmpty(layout: Layout, mem: Memory, cursor: nat)
    requires AllocatorOk(layout, mem, cursor) && Scan(layout, cursor).0.Some?
    ensures var (page, next) := Scan(layout, cursor);
            var s := Vm(mem[page.value := ZeroPage()], next, [page.value]);
            && VmOk(layout, s, page.value)
            && cursor <= page.value
            && PageMap(s.mem, page.value) == map[]
  {
    var (page, next) := Scan(layout, cursor);
    AllocRawFits(layout, Vm(mem, cursor, []));
    var s := Vm(mem[page.value := ZeroPage()], next, [page.value]);
    ZeroPageHasNoLinks(s.mem, page.value);
    BareRoot(LinksOf(s.mem), page.value);
    ZeroPageRows();
  }
}
