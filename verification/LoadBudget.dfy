/** When loading succeeds: the pages that the tables still lack, counted once for all pages to be mapped, against the
    pages that the allocator can still hand out. */
module LoadBudget {
  import opened Wrappers
  import opened PhysicalMemory
  import opened PageTable
  import opened PageAllocator
  import opened RadixTree
  import opened Translation
  import opened AddressSpace
  import opened UserMemory
  import opened FileContents
  import opened Elf
  import opened Loader

  // ---- What one `alloc_page` adds to the tree ----

  /** After mapping `vpn` from depth `lo` down to depth `hi`, a path exists if it did or is one of these. */
  ghost predicate GainedAt(links: Links, links': Links, root: nat, vpn: nat, lo: nat, hi: nat, d: nat, v: nat)
    requires d <= 4
  {
    Reach(links', root, d, v).Some? <==> Reach(links, root, d, v).Some? || (lo < d <= hi && Prefix(v, d) == Prefix(vpn, d))
  }

  ghost predicate Gained(links: Links, links': Links, root: nat, vpn: nat, lo: nat, hi: nat)
  {
    forall d: nat, v: nat {:trigger GainedAt(links, links', root, vpn, lo, hi, d, v)} | d <= 4 && v < VPN_LIMIT ::
      GainedAt(links, links', root, vpn, lo, hi, d, v)
  }

  lemma GainedTransitive(links: Links, links1: Links, links2: Links, root: nat, vpn: nat, lo: nat, mid: nat, hi: nat)
    requires Gained(links, links1, root, vpn, lo, mid) && Gained(links1, links2, root, vpn, mid, hi) && lo <= mid <= hi
    ensures Gained(links, links2, root, vpn, lo, hi)
  {
    forall d: nat, v: nat | d <= 4 && v < VPN_LIMIT
      ensures GainedAt(links, links2, root, vpn, lo, hi, d, v)
    {
      assert GainedAt(links, links1, root, vpn, lo, mid, d, v) && GainedAt(links1, links2, root, vpn, mid, hi, d, v);
    }
  }

  // An existing path: nothing is gained.
  lemma NothingGained(links: Links, root: nat, vpn: nat, d: nat, next: nat)
    requires d < 4 && next == d + 1 && Reach(links, root, next, vpn).Some?
    ensures Gained(links, links, root, vpn, d, next)
  {
    forall d': nat, v: nat | d' <= 4 && v < VPN_LIMIT
      ensures GainedAt(links, links, root, vpn, d, next, d', v)
    {
      if d' == next && Prefix(v, d') == Prefix(vpn, d') {
        SamePrefixSamePath(links, root, d', v, vpn);
      }
    }
  }

  lemma LinkGains(links: Links, links': Links, root: nat, d: nat, next: nat, vpn: nat, page: nat)
    requires d < 4 && next == d + 1 && vpn < VPN_LIMIT && Reach(links, root, next, vpn).None?
    requires forall d': nat, v: nat | d' <= 4 && v < VPN_LIMIT :: Reach(links', root, d', v) == ReachAfter(links, root, d, vpn, page, d', v)
    ensures Gained(links, links', root, vpn, d, next)
  {
    forall d': nat, v: nat | d' <= 4 && v < VPN_LIMIT
      ensures GainedAt(links, links', root, vpn, d, next, d', v)
    {
      assert Reach(links', root, d', v) == ReachAfter(links, root, d, vpn, page, d', v);
      if d' > d && Prefix(v, d + 1) == Prefix(vpn, d + 1) {
        SamePrefixSamePath(links, root, d + 1, v, vpn);
        NoneBelow(links, root, d + 1, d', v);
      }
    }
  }

  lemma {:induction false} NoneBelow(links: Links, root: nat, d: nat, d': nat, v: nat)
    requires d <= d' <= 4 && Reach(links, root, d, v).None?
    ensures Reach(links, root, d', v).None?
    decreases d'
  {
    if d < d' {
      NoneBelow(links, root, d, d' - 1, v);
    }
  }

  // One level.
  lemma TableGains(layout: Layout, s: Vm, root: nat, t: TableManager, address: nat) returns (s': Vm, r: Result<TableManager>)
    requires VmOk(layout, s, root) && OnPath(s, root, t, address) && t.level < LEVEL_MAX && t.table in s.mem
    ensures (s', r) == TableOutcome(layout, s, root, t, address)
    ensures r.Ok? ==> Gained(LinksOf(s.mem), LinksOf(s'.mem), root, address / PAGE_SIZE, t.level, t.level + 1)
  {
    var vpn := address / PAGE_SIZE;
    var (s1, a) := AllocRaw(layout, s);
    if Reach(LinksOf(s.mem), root, t.level + 1, vpn).Some? {
      NothingGained(LinksOf(s.mem), root, vpn, t.level, t.level + 1);
    } else if a.Ok? && Fits(a.value) {
      LinkStep(layout, s, root, t.level, vpn, t.table);
      var s2 := WithLink(s1, t.table, Slot(vpn, t.level), LinkRow(t.level, a.value));
      LinkGains(LinksOf(s.mem), LinksOf(s2.mem), root, t.level, t.level + 1, vpn, a.value);
    }
    s', r := TableOutcome(layout, s, root, t, address).0, TableOutcome(layout, s, root, t, address).1;
  }

  lemma PageGains(layout: Layout, s: Vm, root: nat, t: TableManager, address: nat)
    requires VmOk(layout, s, root) && OnPath(s, root, t, address) && t.level == LEVEL_MAX && t.table in s.mem
    ensures var (s', r) := PageOutcome(layout, s, root, t, address);
            r.Ok? ==> Gained(LinksOf(s.mem), LinksOf(s'.mem), root, address / PAGE_SIZE, 3, 4)
  {
    var vpn := address / PAGE_SIZE;
    var (s1, a) := AllocRaw(layout, s);
    if Reach(LinksOf(s.mem), root, 4, vpn).Some? {
      NothingGained(LinksOf(s.mem), root, vpn, 3, 4);
    } else if a.Ok? && Fits(a.value) {
      LinkStep(layout, s, root, 3, vpn, t.table);
      var s2 := WithLink(s1, t.table, Slot(vpn, 3), LinkRow(3, a.value));
      LinkGains(LinksOf(s.mem), LinksOf(s2.mem), root, 3, 4, vpn, a.value);
    }
  }

  lemma LevelGains(layout: Layout, s: Vm, root: nat, t: TableManager, address: nat) returns (s1: Vm, r1: Result<TableManager>)
    requires VmOk(layout, s, root) && OnPath(s, root, t, address) && t.level < LEVEL_MAX
    ensures r1.Err? ==> AllocFrom(layout, s, root, t, address).1.Err?
    ensures r1.Ok? ==>
              && VmOk(layout, s1, root) && OnPath(s1, root, r1.value, address) && r1.value.level == t.level + 1
              && AllocFrom(layout, s, root, t, address) == AllocFrom(layout, s1, root, r1.value, address)
              && Gained(LinksOf(s.mem), LinksOf(s1.mem), root, address / PAGE_SIZE, t.level, r1.value.level)
  {
    TableStep(layout, s, root, t, address);
    s1, r1 := TableGains(layout, s, root, t, address);
  }

  /** A successful walk adds exactly the paths of its page. */
  lemma {:induction false} AllocFromGains(layout: Layout, s: Vm, root: nat, t: TableManager, address: nat) returns (s': Vm, r: Result<nat>)
    requires VmOk(layout, s, root) && OnPath(s, root, t, address)
    ensures (s', r) == AllocFrom(layout, s, root, t, address)
    ensures r.Ok? ==> Gained(LinksOf(s.mem), LinksOf(s'.mem), root, address / PAGE_SIZE, t.level, 4)
    decreases LEVEL_MAX - t.level
  {
    if t.level < LEVEL_MAX {
      var s1, r1 := LevelGains(layout, s, root, t, address);
      if r1.Ok? {
        s', r := AllocFromGains(layout, s1, root, r1.value, address);
        if r.Ok? {
          GainedTransitive(LinksOf(s.mem), LinksOf(s1.mem), LinksOf(s'.mem), root, address / PAGE_SIZE, t.level, r1.value.level, 4);
        }
        return;
      }
    } else {
      PageStep(layout, s, root, t, address);
      PageGains(layout, s, root, t, address);
    }
    s', r := AllocFrom(layout, s, root, t, address).0, AllocFrom(layout, s, root, t, address).1;
  }

  /** ... and consumes exactly the pages that its path lacked. */
  lemma {:induction false} AllocFromConsumes(layout: Layout, s: Vm, root: nat, t: TableManager, address: nat)
    requires VmOk(layout, s, root) && OnPath(s, root, t, address) && layout.capacity <= VA_LIMIT
    ensures var (s', r) := AllocFrom(layout, s, root, t, address);
            r.Ok? ==> |UsableFrom(layout, s'.cursor)| ==
                      |UsableFrom(layout, s.cursor)| - Needed(LinksOf(s.mem), root, t.level, address / PAGE_SIZE)
    decreases LEVEL_MAX - t.level
  {
    if t.level < LEVEL_MAX {
      var s1, r1 := TableStepBalance(layout, s, root, t, address);
      if r1.Ok? {
        AllocFromConsumes(layout, s1, root, r1.value, address);
      }
    } else {
      AllocPopsUsable(layout, s.cursor);
      PageStep(layout, s, root, t, address);
      assert Needed(LinksOf(s.mem), root, 4, address / PAGE_SIZE) == 0;
    }
  }

  // ---- Missing pages ----

  /** The tables at depth 1 to 3, or the frames at depth 4, that the paths of `vpns` lack, each counted once. */
  ghost function MissingAt(links: Links, root: nat, vpns: set<nat>, d: nat): set<nat>
    requires d <= 4
  {
    set v | v in vpns && Reach(links, root, d, v).None? :: Prefix(v, d)
  }

  /** How many pages the tables lack for mapping all of `vpns`. */
  ghost function Missing(links: Links, root: nat, vpns: set<nat>): nat
  {
    |MissingAt(links, root, vpns, 1)| + |MissingAt(links, root, vpns, 2)| + |MissingAt(links, root, vpns, 3)| + |MissingAt(links, root, vpns, 4)|
  }

  ghost function Lacks(links: Links, root: nat, vpn: nat, d: nat): nat
    requires d <= 4
  {
    if Reach(links, root, d, vpn).None? then 1 else 0
  }

  lemma MissingWitness(links: Links, root: nat, vpns: set<nat>, d: nat, x: nat) returns (v: nat)
    requires d <= 4 && x in MissingAt(links, root, vpns, d)
    ensures v in vpns && Reach(links, root, d, v).None? && Prefix(v, d) == x
  {
    v :| v in vpns && Reach(links, root, d, v).None? && Prefix(v, d) == x;
  }

  // The place of `vpn` at depth `d`, if it was missing.
  ghost function OwnPlace(links: Links, root: nat, vpn: nat, d: nat): set<nat>
    requires d <= 4
  {
    if Reach(links, root, d, vpn).None? then {Prefix(vpn, d)} else {}
  }

  lemma MissingBefore(links: Links, links': Links, root: nat, vpn: nat, vpns: set<nat>, d: nat, x: nat)
    requires 1 <= d <= 4 && Gained(links, links', root, vpn, 0, 4) && (forall v | v in vpns :: v < VPN_LIMIT)
    requires x in MissingAt(links, root, vpns + {vpn}, d)
    ensures x in MissingAt(links', root, vpns, d) || x in OwnPlace(links, root, vpn, d)
  {
    var v := MissingWitness(links, root, vpns + {vpn}, d, x);
    if x == Prefix(vpn, d) {
      SamePrefixSamePath(links, root, d, v, vpn);
    } else {
      assert v in vpns && GainedAt(links, links', root, vpn, 0, 4, d, v);
    }
  }

  lemma MissingStill(links: Links, links': Links, root: nat, vpn: nat, vpns: set<nat>, d: nat, x: nat)
    requires 1 <= d <= 4 && Gained(links, links', root, vpn, 0, 4) && (forall v | v in vpns :: v < VPN_LIMIT)
    requires x in MissingAt(links', root, vpns, d)
    ensures x in MissingAt(links, root, vpns + {vpn}, d) && x !in OwnPlace(links, root, vpn, d)
  {
    var v := MissingWitness(links', root, vpns, d, x);
    assert GainedAt(links, links', root, vpn, 0, 4, d, v);
    assert v in vpns + {vpn};
  }

  // Mapping `vpn` fills its place at depth `d` and no other.
  lemma MissingAfter(links: Links, links': Links, root: nat, vpn: nat, vpns: set<nat>, d: nat)
    requires 1 <= d <= 4 && Gained(links, links', root, vpn, 0, 4) && (forall v | v in vpns :: v < VPN_LIMIT)
    ensures |MissingAt(links, root, vpns + {vpn}, d)| == |MissingAt(links', root, vpns, d)| + Lacks(links, root, vpn, d)
  {
    var before, after, own := MissingAt(links, root, vpns + {vpn}, d), MissingAt(links', root, vpns, d), OwnPlace(links, root, vpn, d);
    forall x | x in before
      ensures x in after + own
    {
      MissingBefore(links, links', root, vpn, vpns, d, x);
    }
    forall x | x in after
      ensures x in before && x !in own
    {
      MissingStill(links, links', root, vpn, vpns, d, x);
    }
    assert vpn in vpns + {vpn} && own <= before;
    DisjointUnion(before, after, own);
  }

  lemma DisjointUnion(whole: set<nat>, a: set<nat>, b: set<nat>)
    requires whole <= a + b && a <= whole && b <= whole && a !! b
    ensures |whole| == |a| + |b|
  {
    assert whole == a + b;
  }

  lemma NeededIsLacked(links: Links, root: nat, vpn: nat)
    ensures Needed(links, root, 0, vpn) ==
            Lacks(links, root, vpn, 1) + Lacks(links, root, vpn, 2) + Lacks(links, root, vpn, 3) + Lacks(links, root, vpn, 4)
  {
    if Reach(links, root, 1, vpn).None? {
      NoneBelow(links, root, 1, 2, vpn);
      NoneBelow(links, root, 1, 3, vpn);
      NoneBelow(links, root, 1, 4, vpn);
    } else if Reach(links, root, 2, vpn).None? {
      NoneBelow(links, root, 2, 3, vpn);
      NoneBelow(links, root, 2, 4, vpn);
    } else if Reach(links, root, 3, vpn).None? {
      NoneBelow(links, root, 3, 4, vpn);
    }
    assert Needed(links, root, 4, vpn) == 0;
    assert Needed(links, root, 3, vpn) == Lacks(links, root, vpn, 4);
  }

  lemma MissingAfterAll(links: Links, links': Links, root: nat, vpn: nat, vpns: set<nat>)
    requires Gained(links, links', root, vpn, 0, 4) && (forall v | v in vpns :: v < VPN_LIMIT) && vpn < VPN_LIMIT
    ensures Missing(links, root, vpns + {vpn}) == Missing(links', root, vpns) + Needed(links, root, 0, vpn)
  {
    MissingAfter(links, links', root, vpn, vpns, 1);
    MissingAfter(links, links', root, vpn, vpns, 2);
    MissingAfter(links, links', root, vpn, vpns, 3);
    MissingAfter(links, links', root, vpn, vpns, 4);
    NeededIsLacked(links, root, vpn);
  }

  // What one page lacks is among what all lack.
  lemma NeededAtMostMissing(links: Links, root: nat, vpn: nat, vpns: set<nat>)
    requires vpn in vpns
    ensures Needed(links, root, 0, vpn) <= Missing(links, root, vpns)
  {
    NeededIsLacked(links, root, vpn);
    LackedIsMissing(links, root, vpn, vpns, 1);
    LackedIsMissing(links, root, vpn, vpns, 2);
    LackedIsMissing(links, root, vpn, vpns, 3);
    LackedIsMissing(links, root, vpn, vpns, 4);
  }

  lemma LackedIsMissing(links: Links, root: nat, vpn: nat, vpns: set<nat>, d: nat)
    requires vpn in vpns && d <= 4
    ensures Lacks(links, root, vpn, d) <= |MissingAt(links, root, vpns, d)|
  {
    if Reach(links, root, d, vpn).None? {
      assert Prefix(vpn, d) in MissingAt(links, root, vpns, d);
    }
  }

  /** `alloc_page` succeeds exactly within the budget, and what remains covers exactly what is missing then. */
  lemma AllocPageBudget(layout: Layout, s: Vm, root: nat, address: nat, vpns: set<nat>)
    requires VmOk(layout, s, root) && layout.capacity <= VA_LIMIT && address < VA_LIMIT && forall v | v in vpns :: v < VPN_LIMIT
    ensures var (s', r) := AllocPage(layout, s, root, address);
            && VmOk(layout, s', root)
            && (r.Err? ==> |UsableFrom(layout, s.cursor)| < Missing(LinksOf(s.mem), root, vpns + {address / PAGE_SIZE}))
            && (r.Ok? ==>
                  |UsableFrom(layout, s'.cursor)| - Missing(LinksOf(s'.mem), root, vpns) ==
                  |UsableFrom(layout, s.cursor)| - Missing(LinksOf(s.mem), root, vpns + {address / PAGE_SIZE}))
  {
    var vpn := address / PAGE_SIZE;
    var t := TableManager(root, LEVEL_ROOT, 0);
    AtRoot(s, root, address);
    AllocFromRefines(layout, s, root, t, address);
    AllocFromFailsExactly(layout, s, root, t, address);
    var (s', r) := AllocPage(layout, s, root, address);
    if r.Ok? {
      var s1, r1 := AllocFromGains(layout, s, root, t, address);
      AllocFromConsumes(layout, s, root, t, address);
      MissingAfterAll(LinksOf(s.mem), LinksOf(s'.mem), root, vpn, vpns);
    } else {
      NeededAtMostMissing(LinksOf(s.mem), root, vpn, vpns + {vpn});
    }
  }

  // ---- The load loop ----

  /** The pages that chunks lie in. */
  ghost function Pages(chunks: seq<Chunk>): set<nat>
  {
    set c | c in chunks :: c.address / PAGE_SIZE
  }

  lemma SameReachSameMissing(mem: Memory, mem': Memory, root: nat, vpns: set<nat>)
    requires SameReach(mem, mem', root) && forall v | v in vpns :: v < VPN_LIMIT
    ensures Missing(LinksOf(mem'), root, vpns) == Missing(LinksOf(mem), root, vpns)
  {
    MissingAtSame(mem, mem', root, vpns, 1);
    MissingAtSame(mem, mem', root, vpns, 2);
    MissingAtSame(mem, mem', root, vpns, 3);
    MissingAtSame(mem, mem', root, vpns, 4);
  }

  lemma MissingAtSame(mem: Memory, mem': Memory, root: nat, vpns: set<nat>, d: nat)
    requires d <= 4 && SameReach(mem, mem', root) && forall v | v in vpns :: v < VPN_LIMIT
    ensures MissingAt(LinksOf(mem'), root, vpns, d) == MissingAt(LinksOf(mem), root, vpns, d)
  {
    assert forall v | v in vpns :: Reach(LinksOf(mem'), root, d, v) == Reach(LinksOf(mem), root, d, v);
  }

  // One turn of the loop: the copy takes no page and moves no path.
  lemma LoadChunkBudget(layout: Layout, s: Vm, root: nat, c: Chunk, vpns: set<nat>) returns (s': Vm, r: Result<()>)
    requires VmOk(layout, s, root) && layout.capacity <= VA_LIMIT && OnePage(c) && c.address < VA_LIMIT
    requires forall v | v in vpns :: v < VPN_LIMIT
    ensures (s', r) == LoadChunk(layout, s, root, c) && VmOk(layout, s', root)
    ensures r.Err? ==> |UsableFrom(layout, s.cursor)| < Missing(LinksOf(s.mem), root, vpns + {c.address / PAGE_SIZE})
    ensures r.Ok? ==>
              |UsableFrom(layout, s'.cursor)| - Missing(LinksOf(s'.mem), root, vpns) ==
              |UsableFrom(layout, s.cursor)| - Missing(LinksOf(s.mem), root, vpns + {c.address / PAGE_SIZE})
  {
    LoadChunkMeaning(layout, s, root, c, 0);
    AllocPageBudget(layout, s, root, c.address, vpns);
    var (s1, frame) := AllocPage(layout, s, root, c.address);
    s', r := LoadChunk(layout, s, root, c).0, LoadChunk(layout, s, root, c).1;
    if r.Ok? {
      CopyToUserMeaning(s1.mem, root, s1.pages, c.address, c.bytes, 0);
      SameReachSameMissing(s1.mem, s'.mem, root, vpns);
    }
  }

  lemma PagesUnfold(chunks: seq<Chunk>, vpns: set<nat>)
    requires |chunks| > 0
    ensures vpns + Pages(chunks) == (vpns + Pages(chunks[1..])) + {chunks[0].address / PAGE_SIZE}
  {
    assert chunks == [chunks[0]] + chunks[1..];
  }

  ghost predicate Below(chunks: seq<Chunk>)
  {
    forall c | c in chunks :: c.address < VA_LIMIT
  }

  lemma PagesBelow(chunks: seq<Chunk>)
    ensures Below(chunks) <==> forall v | v in Pages(chunks) :: v < VPN_LIMIT
  {
    if Below(chunks) {
      forall v | v in Pages(chunks)
        ensures v < VPN_LIMIT
      {
        var c :| c in chunks && c.address / PAGE_SIZE == v;
      }
    } else {
      var c :| c in chunks && c.address >= VA_LIMIT;
      assert c.address / PAGE_SIZE in Pages(chunks);
    }
  }

  lemma {:induction false} LoadAllBudget(layout: Layout, s: Vm, root: nat, chunks: seq<Chunk>, vpns: set<nat>) returns (s': Vm, r: Result<()>)
    requires VmOk(layout, s, root) && layout.capacity <= VA_LIMIT && (forall c | c in chunks :: OnePage(c)) && Below(chunks)
    requires forall v | v in vpns :: v < VPN_LIMIT
    ensures (s', r) == LoadAll(layout, s, root, chunks) && VmOk(layout, s', root)
    ensures r.Err? ==> |UsableFrom(layout, s.cursor)| < Missing(LinksOf(s.mem), root, vpns + Pages(chunks))
    ensures r.Ok? ==>
              |UsableFrom(layout, s'.cursor)| - Missing(LinksOf(s'.mem), root, vpns) ==
              |UsableFrom(layout, s.cursor)| - Missing(LinksOf(s.mem), root, vpns + Pages(chunks))
    decreases |chunks|
  {
    if |chunks| == 0 {
      assert vpns + Pages(chunks) == vpns;
      s', r := s, Ok(());
    } else {
      assert OnePage(chunks[0]);
      PagesUnfold(chunks, vpns);
      PagesBelow(chunks[1..]);
      var s1, r1 := LoadChunkBudget(layout, s, root, chunks[0], vpns + Pages(chunks[1..]));
      if r1.Err? {
        s', r := s1, Err;
      } else {
        s', r := LoadAllBudget(layout, s1, root, chunks[1..], vpns);
      }
    }
  }

  lemma {:induction false} LoadAllBeyond(layout: Layout, s: Vm, root: nat, chunks: seq<Chunk>)
    requires VmOk(layout, s, root) && (forall c | c in chunks :: OnePage(c)) && !Below(chunks)
    ensures LoadAll(layout, s, root, chunks).1.Err?
    decreases |chunks|
  {
    assert OnePage(chunks[0]);
    LoadChunkMeaning(layout, s, root, chunks[0], 0);
    var (s1, r) := LoadChunk(layout, s, root, chunks[0]);
    if r.Ok? {
      assert AllocPage(layout, s, root, chunks[0].address).1.Ok?;
      assert chunks[0].address < VA_LIMIT && chunks == [chunks[0]] + chunks[1..];
      LoadAllBeyond(layout, s1, root, chunks[1..]);
    }
  }

  const STACK_PAGE: nat := STACK_INIT / PAGE_SIZE - 1

  lemma OnePageExactly(layout: Layout, s: Vm, root: nat, address: nat)
    requires VmOk(layout, s, root) && layout.capacity <= VA_LIMIT && address < VA_LIMIT
    ensures AllocPage(layout, s, root, address).1.Ok? <==>
            Missing(LinksOf(s.mem), root, {address / PAGE_SIZE}) <= |UsableFrom(layout, s.cursor)|
  {
    AllocPageBudget(layout, s, root, address, {});
    assert {} + {address / PAGE_SIZE} == {address / PAGE_SIZE};
    NothingMissing(LinksOf(AllocPage(layout, s, root, address).0.mem), root);
  }

  lemma NothingMissing(links: Links, root: nat)
    ensures Missing(links, root, {}) == 0
  {
    assert MissingAt(links, root, {}, 1) == {} && MissingAt(links, root, {}, 2) == {};
    assert MissingAt(links, root, {}, 3) == {} && MissingAt(links, root, {}, 4) == {};
  }

  // The loop and one more page, within the 48-bit range.
  lemma LoopThenPage(layout: Layout, s: Vm, root: nat, chunks: seq<Chunk>, address: nat) returns (s1: Vm, r1: Result<()>)
    requires VmOk(layout, s, root) && layout.capacity <= VA_LIMIT && (forall c | c in chunks :: OnePage(c)) && Below(chunks)
    requires address < VA_LIMIT
    ensures (s1, r1) == LoadAll(layout, s, root, chunks) && VmOk(layout, s1, root)
    ensures r1.Ok? && AllocPage(layout, s1, root, address).1.Ok? <==>
            Missing(LinksOf(s.mem), root, {address / PAGE_SIZE} + Pages(chunks)) <= |UsableFrom(layout, s.cursor)|
  {
    s1, r1 := LoadAllBudget(layout, s, root, chunks, {address / PAGE_SIZE});
    if r1.Ok? {
      OnePageExactly(layout, s1, root, address);
    }
  }

  lemma StackPageIs()
    ensures STACK_INIT - PAGE_SIZE < VA_LIMIT && (STACK_INIT - PAGE_SIZE) / PAGE_SIZE == STACK_PAGE
  {
  }

  lemma LoadBelow(layout: Layout, s: Vm, root: nat, chunks: seq<Chunk>)
    requires VmOk(layout, s, root) && layout.capacity <= VA_LIMIT && (forall c | c in chunks :: OnePage(c)) && Below(chunks)
    ensures Load(layout, s, root, chunks).1.Ok? <==>
            Missing(LinksOf(s.mem), root, {STACK_PAGE} + Pages(chunks)) <= |UsableFrom(layout, s.cursor)|
  {
    StackPageIs();
    var s1, r1 := LoopThenPage(layout, s, root, chunks, STACK_INIT - PAGE_SIZE);
  }

  /** Loading chunks and mapping the stack succeeds exactly when every chunk lies below 2^48 and the allocator can
      still hand out as many pages as all the paths together lack. */
  lemma LoadSucceedsExactly(layout: Layout, s: Vm, root: nat, chunks: seq<Chunk>)
    requires VmOk(layout, s, root) && layout.capacity <= VA_LIMIT && forall c | c in chunks :: OnePage(c)
    ensures Load(layout, s, root, chunks).1.Ok? <==>
            && (forall v | v in Pages(chunks) :: v < VPN_LIMIT)
            && Missing(LinksOf(s.mem), root, {STACK_PAGE} + Pages(chunks)) <= |UsableFrom(layout, s.cursor)|
  {
    PagesBelow(chunks);
    if Below(chunks) {
      LoadBelow(layout, s, root, chunks);
    } else {
      LoadAllBeyond(layout, s, root, chunks);
    }
  }

  // ---- Segments ----

  /** The pages that a segment touches. */
  ghost function SegmentPages(p: ProgramHeader): set<nat>
  {
    set v: nat | p.virtualAddress / PAGE_SIZE <= v <= (p.virtualAddress + p.memorySize) / PAGE_SIZE && Touches(p, v * PAGE_SIZE)
  }

  /** The pages that the segments from `index` on touch. */
  ghost function TouchedPages(headers: seq<ProgramHeader>, index: nat): set<nat>
    decreases |headers| - index
  {
    if index >= |headers| then {} else SegmentPages(headers[index]) + TouchedPages(headers, index + 1)
  }

  lemma SegmentPageIs(p: ProgramHeader, v: nat)
    ensures v in SegmentPages(p) <==> p.virtualAddress / PAGE_SIZE <= v < p.virtualAddress / PAGE_SIZE + PageCount(p)
  {
    assert v * PAGE_SIZE / PAGE_SIZE == v;
  }

  lemma {:induction false} ChunkPages(content: Bytes, p: ProgramHeader, page: nat, v: nat)
    requires Readable(content, p)
    ensures v in Pages(SegmentChunks(content, p, page)) <==>
            p.virtualAddress / PAGE_SIZE + page <= v < p.virtualAddress / PAGE_SIZE + PageCount(p)
    decreases PageCount(p) - page
  {
    Tiling(p, page);
    if page < PageCount(p) {
      var first, rest := SegmentUnfolds(content, p, page);
      FirstPage(content, p, page);
      OneMorePage(first, rest, v);
      ChunkPages(content, p, page + 1, v);
    }
  }

  lemma OneMorePage(first: Chunk, rest: seq<Chunk>, v: nat)
    ensures v in Pages([first] + rest) <==> v == first.address / PAGE_SIZE || v in Pages(rest)
  {
    PagesConcat([first], rest);
    assert Pages([first]) == {first.address / PAGE_SIZE};
  }

  lemma FirstPage(content: Bytes, p: ProgramHeader, page: nat)
    requires Readable(content, p) && PageRange(p, page).Some?
    ensures ChunkAt(content, p, page).address / PAGE_SIZE == p.virtualAddress / PAGE_SIZE + page
  {
    Tiling(p, page);
  }

  lemma PagesConcat(a: seq<Chunk>, b: seq<Chunk>)
    ensures Pages(a + b) == Pages(a) + Pages(b)
  {
  }

  lemma {:induction false} RemainingPages(content: Bytes, headers: seq<ProgramHeader>, index: nat)
    requires AllReadable(content, headers)
    ensures Pages(Remaining(content, headers, index, 0)) == TouchedPages(headers, index)
    decreases |headers| - index
  {
    if index < |headers| {
      var p := headers[index];
      assert Readable(content, p);
      RemainingPages(content, headers, index + 1);
      PagesConcat(SegmentChunks(content, p, 0), Remaining(content, headers, index + 1, 0));
      forall v: nat
        ensures v in Pages(SegmentChunks(content, p, 0)) <==> v in SegmentPages(p)
      {
        ChunkPages(content, p, 0, v);
        SegmentPageIs(p, v);
      }
    }
  }

  /** What loading needs: every page that a segment touches lies below 2^48, and the allocator can still hand out as
      many pages as the tables lack for all of them and for the stack. */
  ghost predicate Affordable(layout: Layout, s: Vm, root: nat, headers: seq<ProgramHeader>)
    requires ValidLayout(layout)
  {
    && (forall v | v in TouchedPages(headers, 0) :: v < VPN_LIMIT)
    && Missing(LinksOf(s.mem), root, {STACK_PAGE} + TouchedPages(headers, 0)) <= |UsableFrom(layout, s.cursor)|
  }

  /** A program loads exactly when it is affordable. */
  lemma ProgramLoadsExactly(layout: Layout, s: Vm, root: nat, content: Bytes, headers: seq<ProgramHeader>)
    requires VmOk(layout, s, root) && layout.capacity <= VA_LIMIT && AllReadable(content, headers)
    ensures forall c | c in Remaining(content, headers, 0, 0) :: OnePage(c)
    ensures Load(layout, s, root, Remaining(content, headers, 0, 0)).1.Ok? <==> Affordable(layout, s, root, headers)
  {
    OverlayHeaders(None, content, headers, 0, 0);
    RemainingPages(content, headers, 0);
    LoadSucceedsExactly(layout, s, root, Remaining(content, headers, 0, 0));
  }

  // ---- A simple sufficient budget ----

  lemma MissingAtMost(links: Links, root: nat, vpns: set<nat>, d: nat)
    requires d <= 4
    ensures |MissingAt(links, root, vpns, d)| <= |vpns|
    decreases |vpns|
  {
    if vpns != {} {
      var v :| v in vpns;
      var rest := vpns - {v};
      MissingAtMost(links, root, rest, d);
      assert MissingAt(links, root, vpns, d) <= MissingAt(links, root, rest, d) + {Prefix(v, d)};
      Monotone(MissingAt(links, root, vpns, d), MissingAt(links, root, rest, d) + {Prefix(v, d)});
    } else {
      assert MissingAt(links, root, vpns, d) == {};
    }
  }

  lemma Monotone(a: set<nat>, b: set<nat>)
    requires a <= b
    ensures |a| <= |b|
  {
    assert b == a + (b - a);
  }

  /** Four usable pages for each page touched and four for the stack are enough. */
  lemma FourPagesEachAreEnough(layout: Layout, s: Vm, root: nat, headers: seq<ProgramHeader>)
    requires ValidLayout(layout) && forall v | v in TouchedPages(headers, 0) :: v < VPN_LIMIT
    requires 4 * |TouchedPages(headers, 0)| + 4 <= |UsableFrom(layout, s.cursor)|
    ensures Affordable(layout, s, root, headers)
  {
    var vpns := {STACK_PAGE} + TouchedPages(headers, 0);
    MissingAtMost(LinksOf(s.mem), root, vpns, 1);
    MissingAtMost(LinksOf(s.mem), root, vpns, 2);
    MissingAtMost(LinksOf(s.mem), root, vpns, 3);
    MissingAtMost(LinksOf(s.mem), root, vpns, 4);
  }
}
