/** Descriptors and table arithmetic of kernel/src/memory/aarch64/page_table.rs. */
module PageTable {
  import opened Bits
  import opened Wrappers
  import opened PhysicalMemory

  const LEVEL_ROOT: nat := 0
  const LEVEL_MAX: nat := 3

  const TYPE_MASK: nat := 3
  const TYPE_TABLE: nat := 3
  const TYPE_BLOCK: nat := 1
  const TYPE_PAGE: nat := 3

  const TABLE_ADDRESS_MASK: nat := 0xFFFF_FFFF_F000
  const BLOCK_ADDRESS_MASK: nat := 0xFFFF_FFE0_0000
  const PAGE_ADDRESS_MASK: nat := 0xFFFF_FFFF_F000

  const UNPRIVILEGED: nat := 0x40
  const ACCESS_FLAG: nat := 0x400
  const NOT_GLOBAL: nat := 0x800

  const ATTRIBUTE_MASK: nat := 0x1C

  datatype Attribute = Device | Normal | NormalNC

  datatype DescriptorType = TableType | BlockType | PageType

  function AttributeIndex(attribute: Attribute): nat
  {
    match attribute
    case Device => 0
    case Normal => 1
    case NormalNC => 2
  }

  // ---- Builders ----

  function NewTableDescriptor(address: nat): Option<nat>
    requires address < U64
  {
    if And(address, Not(TABLE_ADDRESS_MASK)) != 0 then None else Some(Or(TYPE_TABLE, address))
  }

  function NewBlockDescriptor(address: nat): Option<nat>
    requires address < U64
  {
    if And(address, Not(BLOCK_ADDRESS_MASK)) != 0 then None
    else Some(Or(Or(Or(TYPE_BLOCK, ACCESS_FLAG), NOT_GLOBAL), address))
  }

  function NewPageDescriptor(address: nat): Option<nat>
    requires address < U64
  {
    if And(address, Not(PAGE_ADDRESS_MASK)) != 0 then None
    else Some(Or(Or(Or(TYPE_PAGE, ACCESS_FLAG), NOT_GLOBAL), address))
  }

  function SetAttribute(descriptor: nat, attribute: Attribute): nat
  {
    Or(And(descriptor, Not(ATTRIBUTE_MASK)), 4 * AttributeIndex(attribute))
  }

  function SetUnprivileged(descriptor: nat, unprivileged: bool): nat
  {
    if unprivileged then Or(descriptor, UNPRIVILEGED) else And(descriptor, Not(UNPRIVILEGED))
  }

  function TableAddress(descriptor: nat): nat { And(descriptor, TABLE_ADDRESS_MASK) }

  function PageAddress(descriptor: nat): nat { And(descriptor, PAGE_ADDRESS_MASK) }

  // ---- What the builders build, as fields of the word ----

  /** `page` is a page-aligned 48-bit output address. */
  predicate Fits(page: nat)
  {
    page % PAGE_SIZE == 0 && page < 0x1_0000_0000_0000
  }

  function TableRow(page: nat): nat { page + 3 }

  /** A page row for the given attribute and EL0 access: valid, AF, nG. */
  function PageRow(page: nat, attribute: Attribute, unprivileged: bool): nat
  {
    page + 0xC03 + 4 * AttributeIndex(attribute) + if unprivileged then 0x40 else 0
  }

  function BlockRow(start: nat, attribute: Attribute): nat
  {
    start + 0xC01 + 4 * AttributeIndex(attribute)
  }

  // The flag words of the builders: every new flag lies above the bits already set.
  lemma {:induction false} FlagWords(kind: nat)
    requires kind < 4
    ensures Or(Or(kind, ACCESS_FLAG), NOT_GLOBAL) == 0xC00 + kind
  {
    SmallPowers();
    AndSplit(kind, ACCESS_FLAG, 0, kind, 1, 0, 10);
    OrIsSumMinusAnd(kind, ACCESS_FLAG);
    AndSplit(0x400 + kind, NOT_GLOBAL, 0, 0x400 + kind, 1, 0, 11);
    OrIsSumMinusAnd(0x400 + kind, NOT_GLOBAL);
  }

  lemma SmallPowers()
    ensures Pow2(2) == 4 && Pow2(3) == 8 && Pow2(5) == 32 && Pow2(6) == 64 && Pow2(7) == 128
    ensures Pow2(10) == 1024 && Pow2(11) == 2048
  {
    assert Pow2(4) == 16;
    assert Pow2(8) == 256;
  }

  // `0xC03` and `0xC01` have no attribute bit; `0xC07` has no privilege bit.
  lemma {:induction false} AttributeWords(kind: nat)
    requires kind == 1 || kind == 3
    ensures And(0xC00 + kind, 0xFE3) == 0xC00 + kind
    ensures And(0xC00 + kind, 4) == 0 && And(0xC00 + kind, 8) == 0
  {
    SmallPowers();
    AndSplit(0xC00 + kind, 0xFE3, 0x60, kind, 127, 3, 5);
    AndOnes(0x60, 7);
    AndOnes(kind, 2);
    AndSplit(0xC00 + kind, 4, 0x180, kind, 0, 4, 3);
    AndSplit(kind, 4, 0, kind, 1, 0, 2);
    AndSplit(0xC00 + kind, 8, 0x180, kind, 1, 0, 3);
    AndSplit(0x180, 1, 0xC0, 0, 0, 1, 1);
  }

  lemma {:induction false} TypeAndPrivilegeWords()
    ensures And(3, 3) == 3 && And(0xC47, 3) == 3 && And(0xC07, UNPRIVILEGED) == 0
  {
    SmallPowers();
    TypeField(3);
    TypeField(0xC47);
    AndSplit(0xC07, UNPRIVILEGED, 0x30, 7, 1, 0, 6);
    AndSplit(0x30, 1, 0x18, 0, 0, 1, 1);
  }

  lemma {:induction false} PageMaskTest(address: nat)
    requires address < U64
    ensures And(address, Not(TABLE_ADDRESS_MASK)) == 0 <==> Fits(address)
  {
    PowersOfTwo();
    var h, l := address / 4096, address % 4096;
    var hh, hl := h / Pow2(36), h % Pow2(36);
    AndSplit(address, Not(TABLE_ADDRESS_MASK), h, l, 0xF_FFF0_0000_0000, 0xFFF, 12);
    AndSplit(h, 0xF_FFF0_0000_0000, hh, hl, 0xFFFF, 0, 36);
    AndOnes(l, 12);
    AndOnes(hh, 16);
  }

  lemma {:induction false} LowAndHigh(address: nat, low: nat)
    requires Fits(address) && low < 4096
    ensures And(low, address) == 0 && Or(low, address) == address + low
    ensures And(address + low, TABLE_ADDRESS_MASK) == address
  {
    PowersOfTwo();
    var h := address / 4096;
    AndSplit(low, address, 0, low, h, 0, 12);
    OrIsSumMinusAnd(low, address);
    AndSplit(address + low, TABLE_ADDRESS_MASK, h, low, 0xF_FFFF_FFFF, 0, 12);
    AndOnes(h, 36);
  }

  lemma {:induction false} LowField(address: nat, low: nat, m: nat)
    requires Fits(address) && low < 4096 && m < 4096
    ensures And(address + low, m) == And(low, m)
  {
    PowersOfTwo();
    AndSplit(address + low, m, address / 4096, low, 0, m, 12);
  }

  /** The table builder accepts exactly the addresses that fit, and packing loses nothing. */
  lemma {:induction false} TableDescriptorMeaning(address: nat)
    requires address < U64
    ensures NewTableDescriptor(address) == if Fits(address) then Some(TableRow(address)) else None
    ensures Fits(address) ==> TableAddress(TableRow(address)) == address
    ensures Fits(address) ==> And(TableRow(address), TYPE_MASK) == TYPE_TABLE
  {
    PageMaskTest(address);
    if Fits(address) {
      TypeAndPrivilegeWords();
      LowAndHigh(address, 3);
      LowField(address, 3, 3);
    }
  }

  lemma {:induction false} ClearAttribute(address: nat, low: nat)
    requires Fits(address) && low < 4096 && And(low, 0xFE3) == low
    ensures And(address + low, Not(ATTRIBUTE_MASK)) == address + low
  {
    PowersOfTwo();
    var h := address / 4096;
    AndSplit(address + low, Not(ATTRIBUTE_MASK), h, low, 0xF_FFFF_FFFF_FFFF, 0xFE3, 12);
    AndOnes(h, 52);
  }

  lemma {:induction false} OrDisjoint(address: nat, low: nat, field: nat)
    requires Fits(address) && low < 4096 && field < 4096 && And(low, field) == 0
    ensures Or(address + low, field) == address + low + field
  {
    LowField(address, low, field);
    OrIsSumMinusAnd(address + low, field);
  }

  lemma {:induction false} SetAttributeOnFresh(address: nat, low: nat, attribute: Attribute)
    requires Fits(address) && (low == 0xC03 || low == 0xC01)
    ensures SetAttribute(address + low, attribute) == address + low + 4 * AttributeIndex(attribute)
  {
    AttributeWords(low - 0xC00);
    ClearAttribute(address, low);
    match attribute
    case Device => OrDisjoint(address, low, 0);
    case Normal => OrDisjoint(address, low, 4);
    case NormalNC => OrDisjoint(address, low, 8);
  }

  /** The page builder chain of the memory context and of the kernel tables. */
  lemma {:induction false} PageDescriptorMeaning(address: nat, attribute: Attribute)
    requires address < U64
    ensures NewPageDescriptor(address).Some? <==> Fits(address)
    ensures Fits(address) ==>
              && SetAttribute(NewPageDescriptor(address).value, attribute) == PageRow(address, attribute, false)
              && SetUnprivileged(PageRow(address, Normal, false), true) == PageRow(address, Normal, true)
              && PageAddress(PageRow(address, Normal, true)) == address
              && And(PageRow(address, Normal, true), TYPE_MASK) == TYPE_PAGE
  {
    PageMaskTest(address);
    if Fits(address) {
      FlagWords(TYPE_PAGE);
      LowAndHigh(address, 0xC03);
      SetAttributeOnFresh(address, 0xC03, attribute);
      UserPageRow(address);
    }
  }

  lemma {:induction false} UserPageRow(address: nat)
    requires Fits(address)
    ensures SetUnprivileged(PageRow(address, Normal, false), true) == PageRow(address, Normal, true)
    ensures PageAddress(PageRow(address, Normal, true)) == address
    ensures And(PageRow(address, Normal, true), TYPE_MASK) == TYPE_PAGE
  {
    TypeAndPrivilegeWords();
    OrDisjoint(address, 0xC07, UNPRIVILEGED);
    LowAndHigh(address, 0xC47);
    LowField(address, 0xC47, 3);
  }

  lemma {:induction false} BlockMaskTest(address: nat)
    requires address < U64
    ensures And(address, Not(BLOCK_ADDRESS_MASK)) == 0 <==> Fits(address) && address % 0x20_0000 == 0
  {
    PowersOfTwo();
    var h, l := address / 0x20_0000, address % 0x20_0000;
    var hh, hl := h / Pow2(27), h % Pow2(27);
    AndSplit(address, Not(BLOCK_ADDRESS_MASK), h, l, 0x7FF_F800_0000, 0x1F_FFFF, 21);
    AndSplit(h, 0x7FF_F800_0000, hh, hl, 0xFFFF, 0, 27);
    AndOnes(l, 21);
    AndOnes(hh, 16);
  }

  /** The block builder accepts 2 MiB-aligned 48-bit addresses and no others. */
  lemma {:induction false} BlockDescriptorMeaning(address: nat, attribute: Attribute)
    requires address < U64
    ensures NewBlockDescriptor(address).Some? <==> Fits(address) && address % 0x20_0000 == 0
    ensures NewBlockDescriptor(address).Some? ==>
              SetAttribute(NewBlockDescriptor(address).value, attribute) == BlockRow(address, attribute)
  {
    BlockMaskTest(address);
    if NewBlockDescriptor(address).Some? {
      FlagWords(TYPE_BLOCK);
      LowAndHigh(address, 0xC01);
      SetAttributeOnFresh(address, 0xC01, attribute);
    }
  }

  /** `row & TYPE_MASK` is the two low bits. */
  lemma {:induction false} TypeField(row: nat)
    ensures And(row, TYPE_MASK) == row % 4
  {
    PowersOfTwo();
    AndSplit(row, 3, row / 4, row % 4, 0, 3, 2);
    AndOnes(row % 4, 2);
  }

  // ---- TableManager and TableRowManager ----

  function Pow512(n: nat): (p: nat)
    ensures p >= 1 && (n > 0 ==> p >= 512)
  {
    if n == 0 then 1 else 512 * Pow512(n - 1)
  }

  /** The number of bytes addressed by a table. */
  function TableLen(level: nat): nat
    requires level <= LEVEL_MAX
  {
    PAGE_SIZE * Pow512(LEVEL_MAX - level + 1)
  }

  /** The number of bytes addressed by a row. */
  function RowLen(level: nat): (n: nat)
    requires level <= LEVEL_MAX
    ensures n > 0
  {
    TableLen(level) / ROW_COUNT
  }

  function RowByAddress(start: nat, level: nat, address: nat): (r: Option<nat>)
    requires level <= LEVEL_MAX
    ensures r.Some? ==> r.value < ROW_COUNT
  {
    Lengths();
    if address < start || address >= start + TableLen(level) then None
    else Some((address - start) / RowLen(level))
  }

  function RowStart(start: nat, level: nat, index: nat): nat
    requires level <= LEVEL_MAX
  {
    start + RowLen(level) * index
  }

  function TypeOf(level: nat, row: nat): Option<DescriptorType>
  {
    if And(row, TYPE_MASK) == TYPE_TABLE && level < LEVEL_MAX then Some(TableType)
    else if And(row, TYPE_MASK) == TYPE_BLOCK && level > 0 then Some(BlockType)
    else if And(row, TYPE_MASK) == TYPE_PAGE && level == LEVEL_MAX then Some(PageType)
    else None
  }

  lemma Lengths()
    ensures TableLen(0) == 0x1_0000_0000_0000 && RowLen(0) == 0x80_0000_0000
    ensures TableLen(1) == 0x80_0000_0000 && RowLen(1) == 0x4000_0000
    ensures TableLen(2) == 0x4000_0000 && RowLen(2) == 0x20_0000
    ensures TableLen(3) == 0x20_0000 && RowLen(3) == 0x1000
  {
    assert Pow512(1) == 512;
    assert Pow512(2) == 0x4_0000;
    assert Pow512(3) == 0x800_0000;
    assert Pow512(4) == 0x10_0000_0000;
  }
}
