/** The kernel's own translation tables (kernel/src/memory/aarch64/init.rs): the loops that fill them,
    and the identity map that the hardware walk then sees. */
module KernelTables {
  import opened Bits
  import opened Wrappers
  import opened PhysicalMemory
  import opened PageTable
  import opened Translation

  const VA_START: nat := 0xFFFF_0000_0000_0000
  const L3_TABLE_COUNT: nat := 3
  const TABLE_COUNT: nat := 6

  const GIB: nat := 0x4000_0000
  const TWO_MIB: nat := 0x20_0000

  /** The address of `TABLES[i]`. */
  function TableAt(base: nat, i: nat): nat { base + PAGE_SIZE * i }

  /** `address & !VA_START` */
  function WithoutPrefix(address: nat): nat
  {
    And(address, Not(VA_START))
  }

  /** Clearing the kernel prefix leaves the 48-bit address, whether the prefix is there or not. */
  lemma {:induction false} PrefixCleared(address: nat)
    requires address < U64
    ensures WithoutPrefix(address) == address % VA_LIMIT
    ensures address < VA_LIMIT ==> WithoutPrefix(address) == address && WithoutPrefix(VA_START + address) == address
  {
    assert Pow2(48) == VA_LIMIT by { PowersOfTwo(); }
    ClearHigh(address, address / VA_LIMIT, address % VA_LIMIT);
    if address < VA_LIMIT {
      ClearHigh(VA_START + address, 0xFFFF, address);
    }
  }

  lemma {:induction false} ClearHigh(address: nat, high: nat, low: nat)
    requires Pow2(48) == VA_LIMIT && address == high * VA_LIMIT + low && low < VA_LIMIT
    ensures WithoutPrefix(address) == low
  {
    AndSplit(address, Not(VA_START), high, low, 0, 0xFFFF_FFFF_FFFF, 48);
    AndOnes(low, 48);
  }

  /** The physical address that the descriptor helpers use. */
  method Physical(address: nat) returns (r: nat)
    requires address < U64
    ensures r == address % VA_LIMIT
  {
    PrefixCleared(address);
    r := WithoutPrefix(address);
  }

  // ---- The rows of each table ----

  /** Row `i` of `TABLES[k]`: tables 0, 1 and 2 are the levels 0, 1 and 2, the others level 3. */
  function KernelRow(base: nat, k: nat, i: nat): nat
  {
    if k == 0 then if i == 0 then TableRow(TableAt(base, 1)) else 0
    else if k == 1 then if i == 0 then TableRow(TableAt(base, 2)) else BlockRow(GIB * i, Device)
    else if k == 2 then if i < L3_TABLE_COUNT then TableRow(TableAt(base, 3 + i)) else BlockRow(TWO_MIB * i, Device)
    else PageRow(TWO_MIB * (k - 3) + PAGE_SIZE * i, Normal, false)
  }

  /** The linker places the tables on page boundaries in 48-bit RAM. */
  predicate Placed(mem: Memory, base: nat)
  {
    && base % PAGE_SIZE == 0
    && base + PAGE_SIZE * TABLE_COUNT <= VA_LIMIT
    && forall i: nat | i < TABLE_COUNT :: TableAt(base, i) in mem
  }

  // ---- What the writes change, row by row ----

  predicate OthersKept(mem: Memory, mem': Memory, table: nat)
  {
    mem'.Keys == mem.Keys && forall p | p in mem && p != table :: mem'[p] == mem[p]
  }

  /** One row of one table is set. */
  predicate RowSet(mem: Memory, mem': Memory, table: nat, i: nat, v: nat)
  {
    && table in mem && OthersKept(mem, mem', table)
    && forall j: nat | j < ROW_COUNT :: Row(mem'[table], j) == if j == i then v else Row(mem[table], j)
  }

  /** The first `n` rows of `TABLES[k]` are written. */
  predicate Filled(mem: Memory, base: nat, k: nat, n: nat)
  {
    TableAt(base, k) in mem && forall i: nat | i < n && i < ROW_COUNT :: Row(mem[TableAt(base, k)], i) == KernelRow(base, k, i)
  }

  lemma FilledStep(mem: Memory, mem': Memory, base: nat, k: nat, n: nat)
    requires Filled(mem, base, k, n) && RowSet(mem, mem', TableAt(base, k), n, KernelRow(base, k, n))
    ensures Filled(mem', base, k, n + 1)
  {
  }

  /** `set_value` */
  method SetRow(ram: Ram, table: nat, row: nat, v: nat)
    requires table in ram.pages && row < ROW_COUNT && v < U64
    modifies ram
    ensures RowSet(old(ram.pages), ram.pages, table, row, v)
  {
    RowAfterWrite(ram.pages[table], row, v);
    ram.WriteRow(table, row, v);
  }

  /** `row.start()` */
  method StartOfRow(start: nat, level: nat, index: nat) returns (address: nat)
    requires level <= LEVEL_MAX
    ensures address == start + Granule(level) * index
  {
    Lengths();
    address := RowStart(start, level, index);
  }

  method WriteTable(ram: Ram, table: nat, level: nat, row: nat, target: nat) returns (r: Result<()>)
    requires table in ram.pages && row < ROW_COUNT && target < U64
    modifies ram
    ensures r.Ok? <==> Fits(target % VA_LIMIT) && level < LEVEL_MAX
    ensures if r.Ok? then RowSet(old(ram.pages), ram.pages, table, row, TableRow(target % VA_LIMIT)) else ram.pages == old(ram.pages)
  {
    var address := Physical(target);
    TableDescriptorMeaning(address);
    var descriptor := NewTableDescriptor(address);
    if descriptor.None? || level >= LEVEL_MAX {
      return Err;
    }
    SetRow(ram, table, row, descriptor.value);
    return Ok(());
  }

  method WriteBlock(ram: Ram, table: nat, level: nat, row: nat, start: nat) returns (r: Result<()>)
    requires table in ram.pages && row < ROW_COUNT && start < U64
    modifies ram
    ensures r.Ok? <==> start % VA_LIMIT % TWO_MIB == 0 && level > LEVEL_ROOT
    ensures if r.Ok? then RowSet(old(ram.pages), ram.pages, table, row, BlockRow(start % VA_LIMIT, Device)) else ram.pages == old(ram.pages)
  {
    var address := Physical(start);
    BlockDescriptorMeaning(address, Device);
    var descriptor := NewBlockDescriptor(address);
    if descriptor.None? || level <= LEVEL_ROOT {
      return Err;
    }
    SetRow(ram, table, row, SetAttribute(descriptor.value, Device));
    return Ok(());
  }

  method WritePage(ram: Ram, table: nat, level: nat, row: nat, start: nat) returns (r: Result<()>)
    requires table in ram.pages && row < ROW_COUNT && start < U64
    modifies ram
    ensures r.Ok? <==> Fits(start % VA_LIMIT) && level == LEVEL_MAX
    ensures if r.Ok? then RowSet(old(ram.pages), ram.pages, table, row, PageRow(start % VA_LIMIT, Normal, false)) else ram.pages == old(ram.pages)
  {
    var address := Physical(start);
    PageDescriptorMeaning(address, Normal);
    var descriptor := NewPageDescriptor(address);
    if descriptor.None? || level != LEVEL_MAX {
      return Err;
    }
    SetRow(ram, table, row, SetAttribute(descriptor.value, Normal));
    return Ok(());
  }

  /** Level 1 [0, i, _, _] */
  method FillLevel1(ram: Ram, base: nat) returns (r: Result<()>)
    requires Placed(ram.pages, base) && TableAt(base, 1) in ram.pages
    modifies ram
    ensures r.Ok?
    ensures OthersKept(old(ram.pages), ram.pages, TableAt(base, 1)) && Filled(ram.pages, base, 1, ROW_COUNT)
  {
    for i := 0 to ROW_COUNT
      invariant OthersKept(old(ram.pages), ram.pages, TableAt(base, 1)) && Filled(ram.pages, base, 1, i)
    {
      ghost var before := ram.pages;
      r := FillLevel1Row(ram, base, i);
      if r.Err? {
        return;
      }
      FilledStep(before, ram.pages, base, 1, i);
    }
    return Ok(());
  }

  method FillLevel1Row(ram: Ram, base: nat, i: nat) returns (r: Result<()>)
    requires Fits(base) && TableAt(base, 2) < VA_LIMIT && TableAt(base, 1) in ram.pages && i < ROW_COUNT
    modifies ram
    ensures r.Ok? && RowSet(old(ram.pages), ram.pages, TableAt(base, 1), i, KernelRow(base, 1, i))
  {
    if i == 0 {
      r := WriteTable(ram, TableAt(base, 1), 1, i, TableAt(base, 2));
    } else {
      var start := StartOfRow(0, 1, i);
      r := WriteBlock(ram, TableAt(base, 1), 1, i, start);
    }
  }

  /** Level 3 [0, 0, i, j] */
  method FillLevel3(ram: Ram, base: nat, i: nat) returns (r: Result<()>)
    requires i < L3_TABLE_COUNT && TableAt(base, 3 + i) in ram.pages
    modifies ram
    ensures r.Ok?
    ensures OthersKept(old(ram.pages), ram.pages, TableAt(base, 3 + i)) && Filled(ram.pages, base, 3 + i, ROW_COUNT)
  {
    for j := 0 to ROW_COUNT
      invariant OthersKept(old(ram.pages), ram.pages, TableAt(base, 3 + i)) && Filled(ram.pages, base, 3 + i, j)
    {
      ghost var before := ram.pages;
      r := FillLevel3Row(ram, base, i, j);
      if r.Err? {
        return;
      }
      FilledStep(before, ram.pages, base, 3 + i, j);
    }
    return Ok(());
  }

  method FillLevel3Row(ram: Ram, base: nat, i: nat, j: nat) returns (r: Result<()>)
    requires i < L3_TABLE_COUNT && TableAt(base, 3 + i) in ram.pages && j < ROW_COUNT
    modifies ram
    ensures r.Ok? && RowSet(old(ram.pages), ram.pages, TableAt(base, 3 + i), j, KernelRow(base, 3 + i, j))
  {
    var tableStart := StartOfRow(0, 2, i);
    var start := StartOfRow(tableStart, 3, j);
    r := WritePage(ram, TableAt(base, 3 + i), LEVEL_MAX, j, start);
  }

  /** The first `n` rows of level 2 and all that they lead to; `TABLES[0]`, `TABLES[1]` and the rest of RAM stay. */
  predicate Filled2(was: Memory, mem: Memory, base: nat, n: nat)
  {
    && mem.Keys == was.Keys
    && (forall p | p in was && (p < TableAt(base, 2) || TableAt(base, TABLE_COUNT) <= p) :: mem[p] == was[p])
    && Filled(mem, base, 2, n)
    && forall k: nat | 3 <= k < 3 + n && k < TABLE_COUNT :: Filled(mem, base, k, ROW_COUNT)
  }

  lemma FilledFrame(mem: Memory, mem': Memory, base: nat, k: nat, n: nat, table: nat)
    requires Filled(mem, base, k, n) && OthersKept(mem, mem', table) && table != TableAt(base, k)
    ensures Filled(mem', base, k, n)
  {
  }

  method FillLevel2Row(ram: Ram, base: nat, i: nat) returns (r: Result<()>)
    requires Placed(ram.pages, base) && TableAt(base, 2) in ram.pages && i < ROW_COUNT
    modifies ram
    ensures r.Ok? && RowSet(old(ram.pages), ram.pages, TableAt(base, 2), i, KernelRow(base, 2, i))
  {
    if i < L3_TABLE_COUNT {
      r := WriteTable(ram, TableAt(base, 2), 2, i, TableAt(base, 3 + i));
    } else {
      var start := StartOfRow(0, 2, i);
      r := WriteBlock(ram, TableAt(base, 2), 2, i, start);
    }
  }

  // A row of level 2, before the tables below it.
  lemma Filled2Row(was: Memory, mem: Memory, mem': Memory, base: nat, i: nat)
    requires Filled2(was, mem, base, i) && RowSet(mem, mem', TableAt(base, 2), i, KernelRow(base, 2, i))
    ensures Filled(mem', base, 2, i + 1) && mem'.Keys == was.Keys
    ensures forall p | p in was && (p < TableAt(base, 2) || TableAt(base, TABLE_COUNT) <= p) :: mem'[p] == was[p]
    ensures forall k: nat | 3 <= k < 3 + i && k < TABLE_COUNT :: Filled(mem', base, k, ROW_COUNT)
    ensures i >= L3_TABLE_COUNT ==> Filled2(was, mem', base, i + 1)
  {
    FilledStep(mem, mem', base, 2, i);
    forall k: nat | 3 <= k < 3 + i && k < TABLE_COUNT
      ensures Filled(mem', base, k, ROW_COUNT)
    {
      FilledFrame(mem, mem', base, k, ROW_COUNT, TableAt(base, 2));
    }
  }

  // The level 3 table below that row.
  lemma Filled2Table(was: Memory, mem: Memory, mem': Memory, base: nat, i: nat)
    requires i < L3_TABLE_COUNT && Filled(mem, base, 2, i + 1) && mem.Keys == was.Keys
    requires forall p | p in was && (p < TableAt(base, 2) || TableAt(base, TABLE_COUNT) <= p) :: mem[p] == was[p]
    requires forall k: nat | 3 <= k < 3 + i && k < TABLE_COUNT :: Filled(mem, base, k, ROW_COUNT)
    requires OthersKept(mem, mem', TableAt(base, 3 + i)) && Filled(mem', base, 3 + i, ROW_COUNT)
    ensures Filled2(was, mem', base, i + 1)
  {
    FilledFrame(mem, mem', base, 2, i + 1, TableAt(base, 3 + i));
    forall k: nat | 3 <= k < 3 + (i + 1) && k < TABLE_COUNT
      ensures Filled(mem', base, k, ROW_COUNT)
    {
      if k < 3 + i {
        FilledFrame(mem, mem', base, k, ROW_COUNT, TableAt(base, 3 + i));
      }
    }
  }

  /** Level 2 [0, 0, i, _] */
  method FillLevel2(ram: Ram, base: nat) returns (r: Result<()>)
    requires Placed(ram.pages, base) && TableAt(base, 2) in ram.pages
    modifies ram
    ensures r.Ok?
    ensures Filled2(old(ram.pages), ram.pages, base, ROW_COUNT)
  {
    for i := 0 to ROW_COUNT
      invariant Filled2(old(ram.pages), ram.pages, base, i)
    {
      ghost var before := ram.pages;
      r := FillLevel2Row(ram, base, i);
      if r.Err? {
        return;
      }
      Filled2Row(old(ram.pages), before, ram.pages, base, i);
      if i < L3_TABLE_COUNT {
        ghost var between := ram.pages;
        r := FillLevel3(ram, base, i);
        if r.Err? {
          return;
        }
        Filled2Table(old(ram.pages), between, ram.pages, base, i);
      }
    }
    return Ok(());
  }

  /** All six tables are as `create_tables` writes them. */
  predicate KernelRows(mem: Memory, base: nat)
  {
    Placed(mem, base) && forall k: nat | k < TABLE_COUNT :: Filled(mem, base, k, ROW_COUNT)
  }

  /** `create_tables` on the zeroed static tables: it never fails, and nothing but the tables changes. */
  method CreateTables(ram: Ram, base: nat) returns (r: Result<nat>)
    requires Placed(ram.pages, base) && base in ram.pages && ram.pages[base] == ZeroPage()
    modifies ram
    ensures r == Ok(base)
    ensures KernelRows(ram.pages, base)
    ensures ram.pages.Keys == old(ram.pages).Keys
    ensures forall p | p in ram.pages && (p < base || TableAt(base, TABLE_COUNT) <= p) :: ram.pages[p] == old(ram.pages)[p]
  {
    assert TableAt(base, 0) in ram.pages && TableAt(base, 1) in ram.pages && TableAt(base, 2) in ram.pages;
    ghost var m0 := ram.pages;
    var w := WriteTable(ram, TableAt(base, 0), 0, 0, TableAt(base, 1));
    if w.Err? {
      return Err;
    }
    ghost var m1 := ram.pages;
    RootFilled(m0, m1, base);
    w := FillLevel1(ram, base);
    if w.Err? {
      return Err;
    }
    ghost var m2 := ram.pages;
    FilledFrame(m1, m2, base, 0, ROW_COUNT, TableAt(base, 1));
    w := FillLevel2(ram, base);
    if w.Err? {
      return Err;
    }
    AllFilled(m2, ram.pages, base);
    return Ok(TableAt(base, 0));
  }

  lemma RootFilled(mem: Memory, mem': Memory, base: nat)
    requires base in mem && mem[base] == ZeroPage() && RowSet(mem, mem', TableAt(base, 0), 0, TableRow(TableAt(base, 1)))
    ensures Filled(mem', base, 0, ROW_COUNT)
  {
    ZeroPageRows();
  }

  lemma AllFilled(mem: Memory, mem': Memory, base: nat)
    requires Placed(mem, base) && Filled(mem, base, 0, ROW_COUNT) && Filled(mem, base, 1, ROW_COUNT)
    requires Filled2(mem, mem', base, ROW_COUNT)
    ensures KernelRows(mem', base)
  {
    forall k: nat | k < TABLE_COUNT
      ensures Filled(mem', base, k, ROW_COUNT)
    {
      if k < 2 {
        assert mem'[TableAt(base, k)] == mem[TableAt(base, k)];
      }
    }
  }

  // ---- What the hardware sees ----

  const IDENTITY_LIMIT: nat := 0x80_0000_0000
  const NORMAL_LIMIT: nat := 0x60_0000

  lemma FollowTable(mem: Memory, table: nat, level: nat, va: nat, next: nat)
    requires level < 3 && table in mem
    requires TypeBits(Row(mem[table], va / Granule(level) % 512)) == 3
    requires OutputAddress(Row(mem[table], va / Granule(level) % 512)) == next
    ensures Walk(mem, table, level, va) == Walk(mem, next, level + 1, va)
  {
  }

  lemma BlockFields(start: nat, row: nat)
    requires Fits(start) && row == BlockRow(start, Device)
    ensures TypeBits(row) == 1 && AccessFlag(row) && !El0Access(row) && AttributeBits(row) == 0
    ensures OutputAddress(row) == start
  {
    LeafOutput(start, 0xC01);
    FlagFields(start / 4096, 0xC01);
  }

  lemma PageFields(start: nat, row: nat)
    requires Fits(start) && row == PageRow(start, Normal, false)
    ensures TypeBits(row) == 3 && AccessFlag(row) && !El0Access(row) && AttributeBits(row) == 1
    ensures OutputAddress(row) == start
  {
    LeafOutput(start, 0xC07);
    FlagFields(start / 4096, 0xC07);
  }

  lemma Split30(va: nat)
    requires va < IDENTITY_LIMIT
    ensures va / GIB < 512 && va / GIB % 512 == va / GIB && GIB * (va / GIB) + va % GIB == va && Fits(GIB * (va / GIB))
    ensures GIB * (va / GIB) / GIB * GIB == GIB * (va / GIB)
  {
  }

  lemma Split21(va: nat)
    requires va < GIB
    ensures va / TWO_MIB < 512 && va / TWO_MIB % 512 == va / TWO_MIB && TWO_MIB * (va / TWO_MIB) + va % TWO_MIB == va
    ensures Fits(TWO_MIB * (va / TWO_MIB)) && TWO_MIB * (va / TWO_MIB) / TWO_MIB * TWO_MIB == TWO_MIB * (va / TWO_MIB)
  {
  }

  lemma Split12(va: nat, k: nat)
    requires va / TWO_MIB == k < L3_TABLE_COUNT
    ensures TWO_MIB * k + PAGE_SIZE * (va / 0x1000 % 512) + va % 0x1000 == va
    ensures Fits(TWO_MIB * k + PAGE_SIZE * (va / 0x1000 % 512))
  {
  }

  // One step of the walk in `TABLES[k]`: on to another table, or to a leaf.
  lemma WalkToTable(mem: Memory, base: nat, k: nat, level: nat, va: nat, next: nat)
    requires KernelRows(mem, base) && k < TABLE_COUNT && next < TABLE_COUNT && level < 3
    requires KernelRow(base, k, va / Granule(level) % 512) == TableRow(TableAt(base, next))
    ensures Walk(mem, TableAt(base, k), level, va) == Walk(mem, TableAt(base, next), level + 1, va)
  {
    assert Filled(mem, base, k, ROW_COUNT);
    LinkRowFields(level, TableAt(base, next));
    FollowTable(mem, TableAt(base, k), level, va, TableAt(base, next));
  }

  lemma WalkToLeaf(mem: Memory, base: nat, k: nat, level: nat, va: nat, row: nat, attribute: nat)
    requires KernelRows(mem, base) && k < TABLE_COUNT && level <= 3
    requires KernelRow(base, k, va / Granule(level) % 512) == row
    requires (0 < level < 3 && TypeBits(row) == 1) || (level == 3 && TypeBits(row) == 3)
    requires AccessFlag(row) && !El0Access(row) && AttributeBits(row) == attribute && LeafAddress(row, level, va) == va
    ensures Walk(mem, TableAt(base, k), level, va) == Some(Target(va, attribute, false))
  {
    assert Filled(mem, base, k, ROW_COUNT);
    assert Walk(mem, TableAt(base, k), level, va) == Decode(mem, row, level, va);
  }

  lemma Level3Identity(mem: Memory, base: nat, k: nat, va: nat)
    requires KernelRows(mem, base) && k < L3_TABLE_COUNT && va / TWO_MIB == k
    ensures Walk(mem, TableAt(base, 3 + k), 3, va) == Some(Target(va, 1, false))
  {
    Split12(va, k);
    var start := TWO_MIB * k + PAGE_SIZE * (va / 0x1000 % 512);
    PageFields(start, PageRow(start, Normal, false));
    WalkToLeaf(mem, base, 3 + k, 3, va, PageRow(start, Normal, false), 1);
  }

  lemma Level2Block(mem: Memory, base: nat, va: nat)
    requires KernelRows(mem, base) && va < GIB && va / TWO_MIB >= L3_TABLE_COUNT
    ensures Walk(mem, TableAt(base, 2), 2, va) == Some(Target(va, 0, false))
  {
    Split21(va);
    var row := BlockRow(TWO_MIB * (va / TWO_MIB), Device);
    BlockFields(TWO_MIB * (va / TWO_MIB), row);
    WalkToLeaf(mem, base, 2, 2, va, row, 0);
  }

  lemma Level1Block(mem: Memory, base: nat, va: nat)
    requires KernelRows(mem, base) && GIB <= va < IDENTITY_LIMIT
    ensures Walk(mem, TableAt(base, 1), 1, va) == Some(Target(va, 0, false))
  {
    Split30(va);
    var row := BlockRow(GIB * (va / GIB), Device);
    BlockFields(GIB * (va / GIB), row);
    WalkToLeaf(mem, base, 1, 1, va, row, 0);
  }

  lemma RootIndex(va: nat)
    requires va < VA_LIMIT
    ensures va / 0x80_0000_0000 % 512 == 0 <==> va < IDENTITY_LIMIT
    ensures va / TWO_MIB < L3_TABLE_COUNT <==> va < NORMAL_LIMIT
  {
  }

  lemma LowAddressWalk(mem: Memory, base: nat, va: nat)
    requires KernelRows(mem, base) && va < GIB
    ensures Walk(mem, TableAt(base, 1), 1, va) == Some(Target(va, if va / TWO_MIB < L3_TABLE_COUNT then 1 else 0, false))
  {
    Split30(va);
    WalkToTable(mem, base, 1, 1, va, 2);
    if va / TWO_MIB < L3_TABLE_COUNT {
      Split21(va);
      WalkToTable(mem, base, 2, 2, va, 3 + va / TWO_MIB);
      Level3Identity(mem, base, va / TWO_MIB, va);
    } else {
      Level2Block(mem, base, va);
    }
  }

  /** The kernel tables are an identity map of the first 2^39 bytes, Normal exactly below 6 MiB and
      Device above, closed to EL0; no other 48-bit address translates. */
  lemma IdentityMap(mem: Memory, base: nat, va: nat)
    requires KernelRows(mem, base)
    ensures Translate(mem, base, va) ==
            if va < IDENTITY_LIMIT
            then Some(Target(va, AttributeIndex(if va < NORMAL_LIMIT then Normal else Device), false))
            else None
  {
    if va < VA_LIMIT {
      RootIndex(va);
      if va >= IDENTITY_LIMIT {
        NoRootRow(mem, base, va);
      } else {
        WalkToTable(mem, base, 0, 0, va, 1);
        if va < GIB {
          LowAddressWalk(mem, base, va);
        } else {
          Level1Block(mem, base, va);
        }
      }
    }
  }

  lemma NoRootRow(mem: Memory, base: nat, va: nat)
    requires KernelRows(mem, base) && va / 0x80_0000_0000 % 512 != 0
    ensures Walk(mem, TableAt(base, 0), 0, va) == None
  {
    assert Filled(mem, base, 0, ROW_COUNT);
    assert Walk(mem, TableAt(base, 0), 0, va) == Decode(mem, 0, 0, va);
  }
}
