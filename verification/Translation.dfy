/** The hardware table walk, and the shape of the table tree that a memory context keeps. */
module Translation {
  import opened Bits
  import opened Wrappers
  import opened PhysicalMemory
  import opened PageTable
  import opened RadixTree

  const VA_LIMIT: nat := 0x1_0000_0000_0000

  // ---- Fields of a descriptor, as the Arm architecture lays them out (DDI 0487, D8.3) ----

  /** Bits 47:12 */
  function OutputAddress(row: nat): nat { row / 4096 % 0x10_0000_0000 * 4096 }

  /** Bits 1:0 */
  function TypeBits(row: nat): nat { row % 4 }

  /** Bit 10 */
  predicate AccessFlag(row: nat) { row / 0x400 % 2 == 1 }

  /** Bits 4:2 */
  function AttributeBits(row: nat): nat { row / 4 % 8 }

  /** Bit 6 */
  predicate El0Access(row: nat) { row / 0x40 % 2 == 1 }

  // ---- The walk ----

  /** A successful translation: output address, memory attribute index, access from EL0. */
  datatype Target = Target(address: nat, attribute: nat, el0: bool)

  /** An address of user memory on `frame`. */
  function UserTarget(frame: nat, va: nat): Target
  {
    Target(frame + va % 4096, AttributeIndex(Normal), true)
  }

  /** A block or page descriptor keeps the low bits of the address: 30, 21 or 12 of them. */
  function LeafAddress(row: nat, level: nat, va: nat): nat
  {
    if level == 1 then OutputAddress(row) / 0x4000_0000 * 0x4000_0000 + va % 0x4000_0000
    else if level == 2 then OutputAddress(row) / 0x20_0000 * 0x20_0000 + va % 0x20_0000
    else OutputAddress(row) + va % 0x1000
  }

  function LeafTarget(row: nat, level: nat, va: nat): Target
  {
    Target(LeafAddress(row, level, va), AttributeBits(row), El0Access(row))
  }

  /** The number of bytes that a row covers at each level. */
  function Granule(level: nat): nat
  {
    if level == 0 then 0x80_0000_0000 else if level == 1 then 0x4000_0000 else if level == 2 then 0x20_0000 else 0x1000
  }

  /** The stage 1 walk from the table at `level`; `None` is a fault. */
  function Walk(mem: Memory, table: nat, level: nat, va: nat): Option<Target>
    requires level <= 3
    decreases 3 - level, 1, va
  {
    if table !in mem then None
    else Decode(mem, Row(mem[table], va / Granule(level) % 512), level, va)
  }

  /** Decodes one descriptor: a next table, a block, a page, or a fault. */
  function Decode(mem: Memory, row: nat, level: nat, va: nat): Option<Target>
    requires level <= 3
    decreases 3 - level, 0, va
  {
    if level < 3 && TypeBits(row) == 3 then Walk(mem, OutputAddress(row), level + 1, va)
    else if (level == 3 && TypeBits(row) == 3) || (0 < level < 3 && TypeBits(row) == 1) then
      if AccessFlag(row) then Some(LeafTarget(row, level, va)) else None
    else None
  }

  function Translate(mem: Memory, root: nat, va: nat): Option<Target>
  {
    if va < VA_LIMIT then Walk(mem, root, 0, va) else None
  }

  // ---- The links of a memory ----

  /** The row that points to `page` from a table at `level`. */
  function LinkRow(level: nat, page: nat): nat
  {
    if level < 3 then TableRow(page) else PageRow(page, Normal, true)
  }

  /** The link in a row of type 3. */
  function RowLink(mem: Memory, t: nat, s: nat): Option<nat>
  {
    if s < ROW_COUNT && t in mem && TypeBits(Row(mem[t], s)) == 3 then Some(OutputAddress(Row(mem[t], s))) else None
  }

  ghost predicate IsLinks(mem: Memory, links: Links)
  {
    forall t: nat, s: nat {:trigger RowLink(mem, t, s)} :: Child(links, t, s) == RowLink(mem, t, s)
  }

  /** The links of a memory: there is exactly one such map (`LinksAreUnique`). */
  ghost function LinksOf(mem: Memory): (links: Links)
    ensures IsLinks(mem, links)
  {
    assert IsLinks(mem, imap k: (nat, nat) | RowLink(mem, k.0, k.1).Some? :: RowLink(mem, k.0, k.1).value);
    var links :| IsLinks(mem, links);
    links
  }

  lemma LinksAreUnique(mem: Memory, links: Links)
    requires IsLinks(mem, links)
    ensures links == LinksOf(mem)
  {
    forall k: (nat, nat)
      ensures Child(links, k.0, k.1) == Child(LinksOf(mem), k.0, k.1)
    {
      assert Child(links, k.0, k.1) == RowLink(mem, k.0, k.1);
    }
    assert forall k: (nat, nat) :: k in links <==> Child(links, k.0, k.1).Some?;
  }

  /** A row of a table at `level` is empty, or links to a page exactly as the builders write it. */
  predicate RowOk(mem: Memory, table: nat, level: nat, slot: nat)
    requires slot < ROW_COUNT
  {
    && table in mem
    && (|| Row(mem[table], slot) == 0
        || Row(mem[table], slot) == LinkRow(level, OutputAddress(Row(mem[table], slot))))
  }

  ghost predicate RowsOk(mem: Memory, root: nat)
  {
    forall d: nat, v: nat {:trigger RowOk(mem, Reach(LinksOf(mem), root, d, v).value, d, Slot(v, d))}
      | d < 4 && v < VPN_LIMIT && Reach(LinksOf(mem), root, d, v).Some? ::
      RowOk(mem, Reach(LinksOf(mem), root, d, v).value, d, Slot(v, d))
  }

  /** The invariant of one context: its rows are as the builders write them, every page of its
      tree is recorded, and no page has two paths. */
  ghost predicate ContextOk(mem: Memory, root: nat, pages: seq<nat>)
  {
    && (forall p | p in pages :: p in mem)
    && RowsOk(mem, root)
    && Recorded(LinksOf(mem), root, pages)
    && OnePath(LinksOf(mem), root)
  }

  // ---- Fields of a descriptor word: an output address above bit 11 and flags below ----

  lemma LeafOutput(page: nat, low: nat)
    requires Fits(page) && low < 4096
    ensures OutputAddress(page + low) == page
  {
    assert (page + low) / 4096 == page / 4096;
  }

  lemma FlagFields(h: nat, flags: nat)
    requires flags == 0xC01 || flags == 0xC07 || flags == 0xC47
    ensures AccessFlag(4096 * h + flags) && (El0Access(4096 * h + flags) <==> flags == 0xC47)
    ensures AttributeBits(4096 * h + flags) == flags / 4 % 8 && TypeBits(4096 * h + flags) == flags % 4
  {
    var row := 4096 * h + flags;
    AccessField(row, 2 * h + 1, flags - 0xC00);
    El0Field(row, 32 * h + 24, if flags == 0xC47 then 1 else 0, if flags == 0xC47 then 7 else flags - 0xC00);
    AttributeField(row, 128 * h, flags);
  }

  lemma AccessField(row: nat, q: nat, low: nat)
    requires row == 0x800 * q + 0x400 + low && low < 0x400
    ensures AccessFlag(row)
  {
    assert row / 0x400 == 2 * q + 1;
  }

  lemma El0Field(row: nat, q: nat, bit: nat, low: nat)
    requires row == 0x80 * q + 0x40 * bit + low && low < 0x40 && bit < 2
    ensures El0Access(row) <==> bit == 1
  {
    assert row / 0x40 == 2 * q + bit;
  }

  lemma AttributeField(row: nat, q: nat, low: nat)
    requires row == 32 * q + low
    ensures AttributeBits(row) == low / 4 % 8 && TypeBits(row) == low % 4
  {
    assert row / 4 == 8 * q + low / 4;
  }

  lemma LinkRowFields(d: nat, page: nat)
    requires d < 4 && Fits(page)
    ensures LinkRow(d, page) < U64
    ensures LinkRow(d, page) != 0 && TypeBits(LinkRow(d, page)) == 3 && OutputAddress(LinkRow(d, page)) == page
  {
    if d < 3 {
      LeafOutput(page, 3);
      AttributeField(TableRow(page), 128 * (page / 4096), 3);
    } else {
      LeafOutput(page, 0xC47);
      FlagFields(page / 4096, 0xC47);
    }
  }

  lemma UserPageFields(page: nat, va: nat)
    requires Fits(page)
    ensures AccessFlag(LinkRow(3, page))
    ensures LeafTarget(LinkRow(3, page), 3, va) == UserTarget(page, va)
  {
    LeafOutput(page, 0xC47);
    FlagFields(page / 4096, 0xC47);
  }

  lemma ChildOf(mem: Memory, t: nat, s: nat)
    requires s < ROW_COUNT
    ensures Child(LinksOf(mem), t, s) ==
            if t in mem && TypeBits(Row(mem[t], s)) == 3 then Some(OutputAddress(Row(mem[t], s))) else None
  {
    assert Child(LinksOf(mem), t, s) == RowLink(mem, t, s);
  }

  lemma ZeroPageHasNoLinks(mem: Memory, page: nat)
    requires page in mem && mem[page] == ZeroPage()
    ensures forall s: nat | s < ROW_COUNT :: Child(LinksOf(mem), page, s).None?
  {
    ZeroPageRows();
    forall s: nat | s < ROW_COUNT
      ensures Child(LinksOf(mem), page, s).None?
    {
      ChildOf(mem, page, s);
    }
  }

  /** Writing a link row inserts one link. */
  lemma LinksAfterWrite(mem: Memory, table: nat, slot: nat, level: nat, page: nat)
    requires table in mem && slot < ROW_COUNT && level < 4 && Fits(page)
    ensures LinksOf(mem[table := WithRow(mem[table], slot, LinkRow(level, page))]) == LinksOf(mem)[(table, slot) := page]
  {
    LinkRowFields(level, page);
    RowAfterWrite(mem[table], slot, LinkRow(level, page));
    var mem' := mem[table := WithRow(mem[table], slot, LinkRow(level, page))];
    var links' := LinksOf(mem)[(table, slot) := page];
    forall t: nat, s: nat
      ensures Child(links', t, s) == RowLink(mem', t, s)
    {
      assert Child(LinksOf(mem), t, s) == RowLink(mem, t, s);
    }
    LinksAreUnique(mem', links');
  }

  /** The tree depends only on the pages in it; frames are not even read. */
  lemma TreeFrame(mem: Memory, mem': Memory, root: nat, pages: seq<nat>)
    requires ContextOk(mem, root, pages)
    requires forall d: nat, v: nat | d < 4 && v < VPN_LIMIT && Reach(LinksOf(mem), root, d, v).Some? ::
               var t := Reach(LinksOf(mem), root, d, v).value; t in mem' && mem'[t] == mem[t]
    requires forall p | p in pages :: p in mem'
    ensures forall d: nat, v: nat | d <= 4 && v < VPN_LIMIT ::
              Reach(LinksOf(mem'), root, d, v) == Reach(LinksOf(mem), root, d, v)
    ensures ContextOk(mem', root, pages)
  {
    forall d: nat, v: nat, s: nat | d < 4 && v < VPN_LIMIT && s < ROW_COUNT && Reach(LinksOf(mem), root, d, v).Some?
      ensures Child(LinksOf(mem'), Reach(LinksOf(mem), root, d, v).value, s) ==
              Child(LinksOf(mem), Reach(LinksOf(mem), root, d, v).value, s)
    {
      ChildOf(mem, Reach(LinksOf(mem), root, d, v).value, s);
      ChildOf(mem', Reach(LinksOf(mem), root, d, v).value, s);
    }
    forall d: nat, v: nat | d <= 4 && v < VPN_LIMIT
      ensures Reach(LinksOf(mem'), root, d, v) == Reach(LinksOf(mem), root, d, v)
    {
      ReachFrame(LinksOf(mem), LinksOf(mem'), root, d, v);
    }
    forall d: nat, v: nat | d < 4 && v < VPN_LIMIT && Reach(LinksOf(mem'), root, d, v).Some?
      ensures RowOk(mem', Reach(LinksOf(mem'), root, d, v).value, d, Slot(v, d))
    {
      assert RowOk(mem, Reach(LinksOf(mem), root, d, v).value, d, Slot(v, d));
    }
    forall d: nat, v: nat, d': nat, v': nat
      | d <= 4 && d' <= 4 && v < VPN_LIMIT && v' < VPN_LIMIT && Reach(LinksOf(mem'), root, d, v).Some?
        && Reach(LinksOf(mem'), root, d, v) == Reach(LinksOf(mem'), root, d', v')
      ensures SamePath(d, v, d', v')
    {
      assert Reach(LinksOf(mem), root, d, v) == Reach(LinksOf(mem), root, d', v');
    }
  }

  lemma ContextFrame(mem: Memory, mem': Memory, root: nat, pages: seq<nat>)
    requires ContextOk(mem, root, pages)
    requires forall p | p in pages :: p in mem' && mem'[p] == mem[p]
    ensures forall d: nat, v: nat | d <= 4 && v < VPN_LIMIT ::
              Reach(LinksOf(mem'), root, d, v) == Reach(LinksOf(mem), root, d, v)
    ensures ContextOk(mem', root, pages)
  {
    TreeFrame(mem, mem', root, pages);
  }

  // ---- Linking a fresh page into the tree of a context ----

  ghost predicate CanLink(mem: Memory, root: nat, pages: seq<nat>, d: nat, vpn: nat, table: nat, page: nat)
  {
    && ContextOk(mem, root, pages)
    && d < 4 && vpn < VPN_LIMIT
    && Reach(LinksOf(mem), root, d, vpn) == Some(table)
    && page !in pages && page in mem && mem[page] == ZeroPage() && Fits(page)
  }

  /** The memory after the row write. */
  function Linked(mem: Memory, table: nat, d: nat, vpn: nat, page: nat): Memory
    requires d < 4 && table in mem
  {
    mem[table := WithRow(mem[table], Slot(vpn, d), LinkRow(d, page))]
  }

  /** Linking keeps the invariant and changes exactly the paths through the new link. */
  lemma LinkKeepsContextOk(mem: Memory, root: nat, pages: seq<nat>, d: nat, vpn: nat, table: nat, page: nat)
    requires CanLink(mem, root, pages, d, vpn, table, page)
    ensures table in mem && ContextOk(Linked(mem, table, d, vpn, page), root, pages + [page])
    ensures forall d': nat, v: nat | d' <= 4 && v < VPN_LIMIT ::
              Reach(LinksOf(Linked(mem, table, d, vpn, page)), root, d', v) == ReachAfter(LinksOf(mem), root, d, vpn, page, d', v)
  {
    ZeroPageHasNoLinks(mem, page);
    LinkKeepsTree(LinksOf(mem), root, pages, table, d, vpn, page);
    LinksAfterWrite(mem, table, Slot(vpn, d), d, page);
    LinkKeepsRows(mem, root, pages, d, vpn, table, page);
  }

  lemma RowOkAfter(mem: Memory, table: nat, d: nat, vpn: nat, page: nat, t: nat, d': nat, s: nat)
    requires table in mem && d < 4 && Fits(page) && s < ROW_COUNT
    requires RowOk(mem, t, d', s) && (t == table ==> d' == d)
    ensures RowOk(Linked(mem, table, d, vpn, page), t, d', s)
  {
    LinkRowFields(d, page);
    RowAfterWrite(mem[table], Slot(vpn, d), LinkRow(d, page));
  }

  lemma LinkKeepsRows(mem: Memory, root: nat, pages: seq<nat>, d: nat, vpn: nat, table: nat, page: nat)
    requires CanLink(mem, root, pages, d, vpn, table, page)
    requires LinksOf(Linked(mem, table, d, vpn, page)) == LinksOf(mem)[(table, Slot(vpn, d)) := page]
    requires forall d': nat, v: nat | d' <= 4 && v < VPN_LIMIT ::
               Reach(LinksOf(mem)[(table, Slot(vpn, d)) := page], root, d', v) == ReachAfter(LinksOf(mem), root, d, vpn, page, d', v)
    ensures RowsOk(Linked(mem, table, d, vpn, page), root)
  {
    var mem' := Linked(mem, table, d, vpn, page);
    forall d': nat, v: nat | d' < 4 && v < VPN_LIMIT && Reach(LinksOf(mem'), root, d', v).Some?
      ensures RowOk(mem', Reach(LinksOf(mem'), root, d', v).value, d', Slot(v, d'))
    {
      var t := Reach(LinksOf(mem'), root, d', v).value;
      assert ReachAfter(LinksOf(mem), root, d, vpn, page, d', v) == Some(t);
      if Reach(LinksOf(mem), root, d', v) == Some(t) {
        assert RowOk(mem, Reach(LinksOf(mem), root, d', v).value, d', Slot(v, d'));
        assert t == table ==> SamePath(d', v, d, vpn);
      } else {
        ZeroPageRows();
      }
      RowOkAfter(mem, table, d, vpn, page, t, d', Slot(v, d'));
    }
  }

  // ---- The hardware walk follows the same paths ----

  lemma SlotsOfAddress(va: nat)
    requires va < VA_LIMIT
    ensures va / 4096 < VPN_LIMIT
    ensures Slot(va / 4096, 0) == va / 0x80_0000_0000 % 512
    ensures Slot(va / 4096, 1) == va / 0x4000_0000 % 512
    ensures Slot(va / 4096, 2) == va / 0x20_0000 % 512
    ensures Slot(va / 4096, 3) == va / 0x1000 % 512
  {
    PrefixPowers(va / 4096);
    Nested39(va);
    Nested30(va);
    Nested21(va);
  }

  lemma Nested39(va: nat)
    ensures va / 4096 / 0x800_0000 == va / 0x80_0000_0000
  {
  }

  lemma Nested30(va: nat)
    ensures va / 4096 / 0x4_0000 == va / 0x4000_0000
  {
  }

  lemma Nested21(va: nat)
    ensures va / 4096 / 0x200 == va / 0x20_0000
  {
  }

  lemma SlotIsField(va: nat, level: nat)
    requires va < VA_LIMIT && level <= 3
    ensures Slot(va / 4096, level) == va / Granule(level) % 512
  {
    SlotsOfAddress(va);
  }

  // What the hardware makes of one row of a context's table.
  lemma DecodeLink(mem: Memory, row: nat, level: nat, va: nat)
    requires level <= 3 && (row == 0 || row == LinkRow(level, OutputAddress(row)))
    ensures Decode(mem, row, level, va) ==
            if row == 0 then None
            else if level < 3 then Walk(mem, OutputAddress(row), level + 1, va)
            else Some(UserTarget(OutputAddress(row), va))
  {
    if row != 0 {
      LinkRowFields(level, OutputAddress(row));
      UserPageFields(OutputAddress(row), va);
    }
  }

  lemma LinkRowIsLink(row: nat, level: nat)
    requires level < 4 && row == LinkRow(level, OutputAddress(row))
    ensures TypeBits(row) == 3
  {
    LinkRowFields(level, OutputAddress(row));
  }

  lemma NextReach(mem: Memory, root: nat, level: nat, v: nat, table: nat)
    requires RowsOk(mem, root) && level <= 3 && v < VPN_LIMIT
    requires Reach(LinksOf(mem), root, level, v) == Some(table)
    ensures RowOk(mem, table, level, Slot(v, level))
    ensures Reach(LinksOf(mem), root, level + 1, v) ==
            var row := Row(mem[table], Slot(v, level)); if row == 0 then None else Some(OutputAddress(row))
  {
    assert RowOk(mem, Reach(LinksOf(mem), root, level, v).value, level, Slot(v, level));
    ChildOf(mem, table, Slot(v, level));
    if Row(mem[table], Slot(v, level)) != 0 {
      LinkRowIsLink(Row(mem[table], Slot(v, level)), level);
    }
  }

  lemma WalkStep(mem: Memory, root: nat, level: nat, va: nat, table: nat)
    requires RowsOk(mem, root) && level <= 3 && va < VA_LIMIT
    requires Reach(LinksOf(mem), root, level, va / 4096) == Some(table)
    ensures Walk(mem, table, level, va) ==
            var next := Reach(LinksOf(mem), root, level + 1, va / 4096);
            if next.None? then None
            else if level < 3 then Walk(mem, next.value, level + 1, va)
            else Some(UserTarget(next.value, va))
  {
    NextReach(mem, root, level, va / 4096, table);
    var row := Row(mem[table], Slot(va / 4096, level));
    SlotIsField(va, level);
    assert Walk(mem, table, level, va) == Decode(mem, row, level, va);
    DecodeLink(mem, row, level, va);
  }

  /** In a context the hardware walk yields exactly the frame at depth 4, as Normal memory open to EL0. */
  lemma {:induction false} WalkFollowsReach(mem: Memory, root: nat, level: nat, va: nat, frame: Option<nat>)
    requires RowsOk(mem, root) && level <= 3 && va < VA_LIMIT
    requires Reach(LinksOf(mem), root, level, va / 4096).Some? && frame == Reach(LinksOf(mem), root, 4, va / 4096)
    ensures Walk(mem, Reach(LinksOf(mem), root, level, va / 4096).value, level, va) ==
            if frame.None? then None else Some(UserTarget(frame.value, va))
    decreases 3 - level
  {
    WalkStep(mem, root, level, va, Reach(LinksOf(mem), root, level, va / 4096).value);
    if Reach(LinksOf(mem), root, level + 1, va / 4096).None? {
      NoneStaysNone(LinksOf(mem), root, level + 1, va / 4096);
    } else if level < 3 {
      WalkFollowsReach(mem, root, level + 1, va, frame);
    }
  }

  /** The page map of a context: virtual page number to frame. */
  ghost function PageMap(mem: Memory, root: nat): map<nat, nat>
  {
    PageMapOf(LinksOf(mem), root)
  }

  /** Translation is the page map, applied to the page number, plus the offset. */
  lemma TranslateIsPageMap(mem: Memory, root: nat, pages: seq<nat>, va: nat)
    requires ContextOk(mem, root, pages)
    ensures Translate(mem, root, va) ==
            if va < VA_LIMIT && va / 4096 in PageMap(mem, root)
            then Some(UserTarget(PageMap(mem, root)[va / 4096], va))
            else None
  {
    if va < VA_LIMIT {
      WalkFollowsReach(mem, root, 0, va, Reach(LinksOf(mem), root, 4, va / 4096));
    }
  }
}
