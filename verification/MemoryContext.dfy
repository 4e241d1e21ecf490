/** The `MemoryContext` class of kernel/src/memory/aarch64/memory_context.rs, over RAM and an
    allocator that it shares with other contexts. Its lock makes each call atomic. */
module MemoryContext {
  import opened Wrappers
  import opened PhysicalMemory
  import opened PageTable
  import opened PageAllocator
  import opened RadixTree
  import opened Translation
  import opened AddressSpace
  import opened UserMemory

  class MemoryContext {
    const allocator: PageAllocator
    const tableL0: nat
    var pageAllocations: seq<nat>

    ghost function State(): Vm
      reads this, allocator, allocator.ram
    {
      Vm(allocator.ram.pages, allocator.cursor, pageAllocations)
    }

    ghost predicate Valid()
      reads this, allocator, allocator.ram
    {
      VmOk(allocator.layout, State(), tableL0)
    }

    constructor FromRoot(allocator: PageAllocator, root: nat)
      ensures this.allocator == allocator && tableL0 == root && pageAllocations == [root]
    {
      this.allocator, tableL0, pageAllocations := allocator, root, [root];
    }

    /** `MemoryContext::new` */
    static method New(allocator: PageAllocator) returns (r: Result<MemoryContext>)
      requires AllocatorOk(allocator.layout, allocator.ram.pages, allocator.cursor)
      requires allocator.NoOverflow()
      modifies allocator`cursor, allocator.ram
      ensures allocator.cursor == Scan(allocator.layout, old(allocator.cursor)).1
      ensures r.Err? <==> Scan(allocator.layout, old(allocator.cursor)).0.None?
      ensures r.Err? ==> allocator.ram.pages == old(allocator.ram.pages)
      ensures r.Ok? ==>
                && fresh(r.value)
                && r.value.allocator == allocator
                && r.value.Valid()
                && r.value.pageAllocations == [r.value.tableL0]
                && old(allocator.cursor) <= r.value.tableL0
                && allocator.ram.pages == old(allocator.ram.pages)[r.value.tableL0 := ZeroPage()]
                && PageMap(allocator.ram.pages, r.value.tableL0) == map[]
    {
      if Scan(allocator.layout, allocator.cursor).0.Some? {
        NewContextIsEmpty(allocator.layout, allocator.ram.pages, allocator.cursor);
      }
      var page := allocator.Alloc();
      if page.Err? {
        return Err;
      }
      var context := new MemoryContext.FromRoot(allocator, page.value);
      return Ok(context);
    }

    /** `alloc_page_raw` and, behind the lock, `alloc_page_unmapped`. */
    method AllocPageRaw() returns (r: Result<nat>)
      requires UsableLayout(allocator.layout) && allocator.NoOverflow()
      modifies this`pageAllocations, allocator`cursor, allocator.ram
      ensures State() == AllocRaw(allocator.layout, old(State())).0
      ensures r == AllocRaw(allocator.layout, old(State())).1
    {
      r := allocator.Alloc();
      if r.Ok? {
        pageAllocations := pageAllocations + [r.value];
      }
    }

    /** `row.start()` for the row on the path. */
    method NextStart(t: TableManager, row: nat, address: nat) returns (start: nat)
      requires t.level < LEVEL_MAX && address < VA_LIMIT && t.start == TableBase(address, t.level)
      requires row == Slot(address / PAGE_SIZE, t.level)
      ensures start == TableBase(address, t.level + 1)
    {
      PathStart(t, address);
      start := RowStart(t.start, t.level, row);
    }

    /** The table that a row holds, if its descriptor type says so. */
    method LoadTable(t: TableManager, row: nat, ghost vpn: nat) returns (r: Option<nat>)
      requires Valid() && t.level < LEVEL_MAX && vpn < VPN_LIMIT && row == Slot(vpn, t.level)
      requires Reach(LinksOf(allocator.ram.pages), tableL0, t.level, vpn) == Some(t.table)
      ensures r == Reach(LinksOf(allocator.ram.pages), tableL0, t.level + 1, vpn)
    {
      SeesChild(allocator.ram.pages, tableL0, t, vpn);
      var value := Row(allocator.ram.pages[t.table], row);
      if TypeOf(t.level, value) == Some(TableType) {
        return Some(TableAddress(value));
      }
      return None;
    }

    /** Allocates a table and writes its descriptor to a row. */
    method CreateTable(table: nat, row: nat, ghost level: nat) returns (r: Result<nat>)
      requires UsableLayout(allocator.layout) && allocator.NoOverflow()
      requires table in allocator.ram.pages && row < ROW_COUNT && level < LEVEL_MAX
      modifies this`pageAllocations, allocator`cursor, allocator.ram
      ensures var (s1, a) := AllocRaw(allocator.layout, old(State()));
              if a.Ok? && Fits(a.value) then r == a && State() == WithLink(s1, table, row, LinkRow(level, a.value))
              else r == Err && State() == s1
      ensures r.Ok? ==> allocator.NoOverflow()
    {
      AllocRawFits(allocator.layout, State());
      r := AllocPageRaw();
      if r.Err? {
        return;
      }
      TableDescriptorMeaning(r.value);
      var descriptor := NewTableDescriptor(r.value);
      if descriptor.None? {
        return Err;
      }
      allocator.ram.WriteRow(table, row, descriptor.value);
    }

    /** Creates or loads the next table on the path of `address`. */
    method TraverseTableToTable(t: TableManager, address: nat) returns (r: Result<TableManager>)
      requires Valid() && allocator.NoOverflow() && t.level < LEVEL_MAX
      requires OnPath(State(), tableL0, t, address)
      modifies this`pageAllocations, allocator`cursor, allocator.ram
      ensures t.table in old(allocator.ram.pages)
      ensures State() == TableOutcome(allocator.layout, old(State()), tableL0, t, address).0
      ensures r == TableOutcome(allocator.layout, old(State()), tableL0, t, address).1
      ensures r.Ok? ==> allocator.NoOverflow()
    {
      TableRecorded(State(), tableL0, t, address);
      PathSlot(t, address);
      var row := RowByAddress(t.start, t.level, address);
      if row.None? {
        return Err;
      }
      var start := NextStart(t, row.value, address);
      var existing := LoadTable(t, row.value, address / PAGE_SIZE);
      if existing.Some? {
        return Ok(TableManager(existing.value, t.level + 1, start));
      }
      var created := CreateTable(t.table, row.value, t.level);
      if created.Err? {
        return Err;
      }
      return Ok(TableManager(created.value, t.level + 1, start));
    }

    /** Creates or loads the page of `address`. */
    method TraverseTableToPage(t: TableManager, address: nat) returns (r: Result<nat>)
      requires Valid() && allocator.NoOverflow() && t.level == LEVEL_MAX
      requires OnPath(State(), tableL0, t, address)
      modifies this`pageAllocations, allocator`cursor, allocator.ram
      ensures t.table in old(allocator.ram.pages)
      ensures State() == PageOutcome(allocator.layout, old(State()), tableL0, t, address).0
      ensures r == PageOutcome(allocator.layout, old(State()), tableL0, t, address).1
      ensures r.Ok? ==> allocator.NoOverflow()
    {
      SeesChild(allocator.ram.pages, tableL0, t, address / PAGE_SIZE);
      PathSlot(t, address);
      AllocRawFits(allocator.layout, State());
      var row := RowByAddress(t.start, t.level, address);
      if row.None? {
        return Err;
      }
      var value := Row(allocator.ram.pages[t.table], row.value);
      if TypeOf(t.level, value) == Some(PageType) {
        return Ok(PageAddress(value));
      }
      var allocation := AllocPageRaw();
      if allocation.Err? {
        return Err;
      }
      PageDescriptorMeaning(allocation.value, Normal);
      var descriptor := NewPageDescriptor(allocation.value);
      if descriptor.None? {
        return Err;
      }
      allocator.ram.WriteRow(t.table, row.value, SetUnprivileged(SetAttribute(descriptor.value, Normal), true));
      return allocation;
    }

    /** `alloc_page`: walks the levels, allocating what is missing. */
    method AllocPage(address: nat) returns (r: Result<nat>)
      requires Valid() && allocator.NoOverflow()
      modifies this`pageAllocations, allocator`cursor, allocator.ram
      ensures Valid()
      ensures State() == AddressSpace.AllocPage(allocator.layout, old(State()), tableL0, address).0
      ensures r == AddressSpace.AllocPage(allocator.layout, old(State()), tableL0, address).1
      ensures r.Ok? ==> allocator.NoOverflow()
    {
      AllocPageRefinesInsert(allocator.layout, State(), tableL0, address);
      RootRange(address);
      var t := TableManager(tableL0, LEVEL_ROOT, 0);
      if RowByAddress(t.start, t.level, address).None? {
        return Err;
      }
      AtRoot(State(), tableL0, address);
      while t.level < LEVEL_MAX
        invariant Valid() && allocator.NoOverflow()
        invariant OnPath(State(), tableL0, t, address)
        invariant AllocFrom(allocator.layout, State(), tableL0, t, address) ==
                  AllocFrom(allocator.layout, old(State()), tableL0, TableManager(tableL0, LEVEL_ROOT, 0), address)
        decreases LEVEL_MAX - t.level
      {
        TableStep(allocator.layout, State(), tableL0, t, address);
        var next := TraverseTableToTable(t, address);
        if next.Err? {
          return Err;
        }
        t := next.value;
      }
      PageStep(allocator.layout, State(), tableL0, t, address);
      r := TraverseTableToPage(t, address);
    }

    /** `copy_to_user`: byte stores through this context's tables. `Err` stands for the fault that
        the source does not handle. */
    method CopyToUser(bytes: seq<Byte>, dst: nat) returns (r: Result<()>)
      requires Valid()
      modifies allocator.ram
      ensures Valid()
      ensures r.Ok? <==> UserMemory.CopyToUser(old(allocator.ram.pages), tableL0, dst, bytes).Some?
      ensures r.Ok? ==> Some(allocator.ram.pages) == UserMemory.CopyToUser(old(allocator.ram.pages), tableL0, dst, bytes)
    {
      ghost var mem := allocator.ram.pages;
      for k := 0 to |bytes|
        invariant CopyFirst(mem, tableL0, dst, bytes, k) == Some(allocator.ram.pages)
        invariant Valid()
      {
        r := StoreToUser(bytes[k], dst + k);
        if r.Err? {
          CopyFirstStuck(mem, tableL0, dst, bytes, k, |bytes|);
          return;
        }
      }
      return Ok(());
    }

    /** One store at the address that the hardware walk yields. */
    method StoreToUser(b: Byte, va: nat) returns (r: Result<()>)
      requires Valid()
      modifies allocator.ram
      ensures Valid()
      ensures r.Ok? <==> StoreUser(old(allocator.ram.pages), tableL0, va, b).Some?
      ensures r.Ok? ==> Some(allocator.ram.pages) == StoreUser(old(allocator.ram.pages), tableL0, va, b)
      ensures r.Err? ==> allocator.ram.pages == old(allocator.ram.pages)
    {
      var target := Translate(allocator.ram.pages, tableL0, va);
      StoreIsTranslatedStore(allocator.layout, State(), tableL0, va, b);
      if target.None? {
        return Err;
      }
      allocator.ram.pages := StoreByte(allocator.ram.pages, target.value.address, b);
      return Ok(());
    }
  }

  lemma StoreIsTranslatedStore(layout: Layout, s: Vm, root: nat, va: nat, b: Byte)
    requires VmOk(layout, s, root)
    ensures var t := Translate(s.mem, root, va);
            if t.None? then StoreUser(s.mem, root, va, b).None?
            else
              && StoreUser(s.mem, root, va, b) == Some(StoreByte(s.mem, t.value.address, b))
              && VmOk(layout, s.(mem := StoreByte(s.mem, t.value.address, b)), root)
  {
    UserAccessIsTranslatedAccess(s.mem, root, s.pages, va, b);
    if Translate(s.mem, root, va).Some? {
      TranslateIsFrame(s.mem, root, s.pages, va);
      StoreUserKeeps(s.mem, root, s.pages, va, b);
    }
  }

  lemma TableRecorded(s: Vm, root: nat, t: TableManager, address: nat)
    requires ContextOk(s.mem, root, s.pages) && OnPath(s, root, t, address)
    ensures t.table in s.mem
  {
    assert t.table in s.pages;
  }

  /** The root table has a row for exactly the 48-bit addresses. */
  lemma RootRange(address: nat)
    ensures RowByAddress(0, LEVEL_ROOT, address).Some? <==> address < VA_LIMIT
  {
    Lengths();
  }
}
