/** User memory: loads and stores through the page map, shown to be loads and stores at the
    addresses that the hardware walk yields, and `copy_to_user`. */
module UserMemory {
  import opened Wrappers
  import opened PhysicalMemory
  import opened RadixTree
  import opened Translation

  /** The frame behind a virtual address. */
  ghost function Frame(mem: Memory, root: nat, va: nat): Option<nat>
  {
    if va < VA_LIMIT then Reach(LinksOf(mem), root, 4, va / PAGE_SIZE) else None
  }

  /** A load by the task: `None` is a fault. */
  ghost function UserByte(mem: Memory, root: nat, va: nat): Option<Byte>
  {
    var frame := Frame(mem, root, va);
    if frame.Some? && frame.value in mem then Some(mem[frame.value][va % PAGE_SIZE]) else None
  }

  /** A store through the tables: `None` is a fault. */
  ghost function StoreUser(mem: Memory, root: nat, va: nat, b: Byte): Option<Memory>
  {
    var frame := Frame(mem, root, va);
    if frame.Some? && frame.value in mem
    then Some(mem[frame.value := mem[frame.value][va % PAGE_SIZE := b]])
    else None
  }

  /** The first `count` byte stores of a copy, in ascending order. */
  ghost function CopyFirst(mem: Memory, root: nat, dst: nat, bytes: seq<Byte>, count: nat): Option<Memory>
    requires count <= |bytes|
    decreases count
  {
    if count == 0 then Some(mem)
    else
      var before := CopyFirst(mem, root, dst, bytes, count - 1);
      if before.None? then None else StoreUser(before.value, root, dst + (count - 1), bytes[count - 1])
  }

  /** `copy_to_user` */
  ghost function CopyToUser(mem: Memory, root: nat, dst: nat, bytes: seq<Byte>): Option<Memory>
  {
    CopyFirst(mem, root, dst, bytes, |bytes|)
  }

  // ---- The same through the hardware walk ----

  function LoadByte(mem: Memory, address: nat): Option<Byte>
  {
    var page := address / PAGE_SIZE * PAGE_SIZE;
    if page in mem then Some(mem[page][address % PAGE_SIZE]) else None
  }

  function StoreByte(mem: Memory, address: nat, b: Byte): Memory
  {
    var page := address / PAGE_SIZE * PAGE_SIZE;
    if page in mem then mem[page := mem[page][address % PAGE_SIZE := b]] else mem
  }

  ghost predicate Aligned(pages: seq<nat>)
  {
    forall p | p in pages :: p % PAGE_SIZE == 0
  }

  lemma PageOfAddress(frame: nat, va: nat)
    requires frame % PAGE_SIZE == 0
    ensures (frame + va % PAGE_SIZE) / PAGE_SIZE * PAGE_SIZE == frame
    ensures (frame + va % PAGE_SIZE) % PAGE_SIZE == va % PAGE_SIZE
  {
  }

  lemma TranslateIsFrame(mem: Memory, root: nat, pages: seq<nat>, va: nat)
    requires ContextOk(mem, root, pages)
    ensures var frame := Frame(mem, root, va);
            && Translate(mem, root, va) == (if frame.Some? then Some(UserTarget(frame.value, va)) else None)
            && (frame.Some? ==> frame.value in mem && frame.value in pages)
  {
    TranslateIsPageMap(mem, root, pages, va);
  }

  /** Loads and stores of user memory are loads and stores at the translated address. */
  lemma UserAccessIsTranslatedAccess(mem: Memory, root: nat, pages: seq<nat>, va: nat, b: Byte)
    requires ContextOk(mem, root, pages) && Aligned(pages)
    ensures var t := Translate(mem, root, va);
            if t.None? then UserByte(mem, root, va).None? && StoreUser(mem, root, va, b).None?
            else
              && UserByte(mem, root, va) == LoadByte(mem, t.value.address)
              && StoreUser(mem, root, va, b) == Some(StoreByte(mem, t.value.address, b))
  {
    TranslateIsFrame(mem, root, pages, va);
    if Frame(mem, root, va).Some? {
      PageOfAddress(Frame(mem, root, va).value, va);
    }
  }

  // ---- What stores do ----

  ghost predicate SameReach(mem: Memory, mem': Memory, root: nat)
  {
    forall d: nat, v: nat | d <= 4 && v < VPN_LIMIT :: Reach(LinksOf(mem'), root, d, v) == Reach(LinksOf(mem), root, d, v)
  }

  /** A store on a frame of the context leaves its tree alone. */
  lemma FrameWriteKeepsTree(mem: Memory, root: nat, pages: seq<nat>, vpn: nat, frame: nat, page: Page)
    requires ContextOk(mem, root, pages) && vpn < VPN_LIMIT && Reach(LinksOf(mem), root, 4, vpn) == Some(frame)
    ensures ContextOk(mem[frame := page], root, pages) && SameReach(mem, mem[frame := page], root)
  {
    forall d: nat, v: nat | d < 4 && v < VPN_LIMIT && Reach(LinksOf(mem), root, d, v).Some?
      ensures Reach(LinksOf(mem), root, d, v) != Some(frame)
    {
      assert !SamePath(4, vpn, d, v);
    }
    TreeFrame(mem, mem[frame := page], root, pages);
  }

  /** The pages outside the context are untouched. */
  ghost predicate OnlyOwnPagesChanged(mem: Memory, mem': Memory, pages: seq<nat>)
  {
    && mem'.Keys == mem.Keys
    && forall p | p in mem && p !in pages :: mem'[p] == mem[p]
  }

  ghost predicate Stored(mem: Memory, mem': Memory, root: nat, pages: seq<nat>)
  {
    ContextOk(mem', root, pages) && SameReach(mem, mem', root) && OnlyOwnPagesChanged(mem, mem', pages)
  }

  lemma StoreUserKeeps(mem: Memory, root: nat, pages: seq<nat>, va: nat, b: Byte)
    requires ContextOk(mem, root, pages) && Frame(mem, root, va).Some?
    ensures StoreUser(mem, root, va, b).Some?
    ensures Stored(mem, StoreUser(mem, root, va, b).value, root, pages)
  {
    var frame := Frame(mem, root, va).value;
    assert frame in pages;
    FrameWriteKeepsTree(mem, root, pages, va / PAGE_SIZE, frame, mem[frame][va % PAGE_SIZE := b]);
  }

  lemma SameReachSameFrame(mem: Memory, mem': Memory, root: nat, va: nat)
    requires SameReach(mem, mem', root)
    ensures Frame(mem', root, va) == Frame(mem, root, va)
  {
  }

  /** One store changes exactly one byte of the address space. */
  lemma StoreUserByte(mem: Memory, root: nat, pages: seq<nat>, va: nat, b: Byte, va': nat)
    requires ContextOk(mem, root, pages) && Frame(mem, root, va).Some?
    ensures StoreUser(mem, root, va, b).Some?
    ensures UserByte(StoreUser(mem, root, va, b).value, root, va') == if va' == va then Some(b) else UserByte(mem, root, va')
  {
    StoreUserKeeps(mem, root, pages, va, b);
    var mem' := StoreUser(mem, root, va, b).value;
    SameReachSameFrame(mem, mem', root, va');
    if Frame(mem, root, va') == Frame(mem, root, va) {
      FrameDeterminesPage(mem, root, va, va');
    }
  }

  lemma FrameDeterminesPage(mem: Memory, root: nat, va: nat, va': nat)
    requires OnePath(LinksOf(mem), root) && Frame(mem, root, va).Some? && Frame(mem, root, va) == Frame(mem, root, va')
    ensures va / PAGE_SIZE == va' / PAGE_SIZE
  {
    assert SamePath(4, va / PAGE_SIZE, 4, va' / PAGE_SIZE);
  }

  ghost predicate Mapped(mem: Memory, root: nat, dst: nat, count: nat)
  {
    forall va | dst <= va < dst + count :: Frame(mem, root, va).Some?
  }

  lemma StoredTransitive(mem: Memory, mem1: Memory, mem2: Memory, root: nat, pages: seq<nat>)
    requires Stored(mem, mem1, root, pages) && Stored(mem1, mem2, root, pages)
    ensures Stored(mem, mem2, root, pages)
  {
  }

  // Up to any unmapped byte the copy goes through; it changes no translation and no foreign page.
  lemma {:induction false} CopyFirstKeeps(mem: Memory, root: nat, pages: seq<nat>, dst: nat, bytes: seq<Byte>, count: nat)
    requires ContextOk(mem, root, pages) && count <= |bytes| && Mapped(mem, root, dst, count)
    ensures CopyFirst(mem, root, dst, bytes, count).Some?
    ensures Stored(mem, CopyFirst(mem, root, dst, bytes, count).value, root, pages)
    decreases count
  {
    if count > 0 {
      CopyFirstKeeps(mem, root, pages, dst, bytes, count - 1);
      var before := CopyFirst(mem, root, dst, bytes, count - 1).value;
      SameReachSameFrame(mem, before, root, dst + (count - 1));
      StoreUserKeeps(before, root, pages, dst + (count - 1), bytes[count - 1]);
      StoredTransitive(mem, before, CopyFirst(mem, root, dst, bytes, count).value, root, pages);
    }
  }

  lemma CopyFirstFrame(mem: Memory, root: nat, pages: seq<nat>, dst: nat, bytes: seq<Byte>, count: nat, va: nat) returns (before: Memory)
    requires ContextOk(mem, root, pages) && count <= |bytes| && Mapped(mem, root, dst, count)
    ensures CopyFirst(mem, root, dst, bytes, count) == Some(before)
    ensures ContextOk(before, root, pages) && Frame(before, root, va) == Frame(mem, root, va)
  {
    CopyFirstKeeps(mem, root, pages, dst, bytes, count);
    before := CopyFirst(mem, root, dst, bytes, count).value;
    SameReachSameFrame(mem, before, root, va);
  }

  // The last store of a copy.
  lemma CopyStep(mem: Memory, root: nat, pages: seq<nat>, dst: nat, bytes: seq<Byte>, count: nat, va: nat) returns (before: Memory, after: Memory)
    requires ContextOk(mem, root, pages) && 0 < count <= |bytes| && Mapped(mem, root, dst, count)
    ensures Mapped(mem, root, dst, count - 1)
    ensures CopyFirst(mem, root, dst, bytes, count - 1) == Some(before) && CopyFirst(mem, root, dst, bytes, count) == Some(after)
    ensures UserByte(after, root, va) == if va == dst + (count - 1) then Some(bytes[count - 1]) else UserByte(before, root, va)
  {
    var last := dst + (count - 1);
    assert Frame(mem, root, last).Some?;
    before := CopyFirstFrame(mem, root, pages, dst, bytes, count - 1, last);
    StoreUserByte(before, root, pages, last, bytes[count - 1], va);
    after := StoreUser(before, root, last, bytes[count - 1]).value;
  }

  lemma {:induction false} CopyFirstBytes(mem: Memory, root: nat, pages: seq<nat>, dst: nat, bytes: seq<Byte>, count: nat, va: nat) returns (after: Memory)
    requires ContextOk(mem, root, pages) && count <= |bytes| && Mapped(mem, root, dst, count)
    ensures CopyFirst(mem, root, dst, bytes, count) == Some(after)
    ensures UserByte(after, root, va) == if dst <= va < dst + count then Some(bytes[va - dst]) else UserByte(mem, root, va)
    decreases count
  {
    if count == 0 {
      after := mem;
    } else {
      var before, last := CopyStep(mem, root, pages, dst, bytes, count, va);
      var previous := CopyFirstBytes(mem, root, pages, dst, bytes, count - 1, va);
      after := last;
    }
  }

  lemma {:induction false} CopyFirstStops(mem: Memory, root: nat, pages: seq<nat>, dst: nat, bytes: seq<Byte>, count: nat)
    requires ContextOk(mem, root, pages) && count <= |bytes| && !Mapped(mem, root, dst, count)
    ensures CopyFirst(mem, root, dst, bytes, count).None?
    decreases count
  {
    if Mapped(mem, root, dst, count - 1) {
      var before := CopyFirstFrame(mem, root, pages, dst, bytes, count - 1, dst + (count - 1));
      assert StoreUser(before, root, dst + (count - 1), bytes[count - 1]).None?;
    } else {
      CopyFirstStops(mem, root, pages, dst, bytes, count - 1);
    }
  }

  // A fault is never overcome by the later stores.
  lemma {:induction false} CopyFirstStuck(mem: Memory, root: nat, dst: nat, bytes: seq<Byte>, k: nat, count: nat)
    requires k < count <= |bytes| && CopyFirst(mem, root, dst, bytes, k).Some?
    requires StoreUser(CopyFirst(mem, root, dst, bytes, k).value, root, dst + k, bytes[k]).None?
    ensures CopyFirst(mem, root, dst, bytes, count).None?
    decreases count
  {
    if k < count - 1 {
      CopyFirstStuck(mem, root, dst, bytes, k, count - 1);
    }
  }

  /** A copy goes through without a fault exactly when every byte of its target is mapped; then it
      stores exactly its bytes, changes no translation and touches no foreign page. */
  lemma CopyToUserMeaning(mem: Memory, root: nat, pages: seq<nat>, dst: nat, bytes: seq<Byte>, va: nat)
    requires ContextOk(mem, root, pages)
    ensures CopyToUser(mem, root, dst, bytes).Some? <==> Mapped(mem, root, dst, |bytes|)
    ensures CopyToUser(mem, root, dst, bytes).Some? ==>
              var mem' := CopyToUser(mem, root, dst, bytes).value;
              && Stored(mem, mem', root, pages)
              && UserByte(mem', root, va) ==
                 if dst <= va < dst + |bytes| then Some(bytes[va - dst]) else UserByte(mem, root, va)
  {
    if Mapped(mem, root, dst, |bytes|) {
      CopyFirstKeeps(mem, root, pages, dst, bytes, |bytes|);
      var after := CopyFirstBytes(mem, root, pages, dst, bytes, |bytes|, va);
    } else {
      CopyFirstStops(mem, root, pages, dst, bytes, |bytes|);
    }
  }
}
