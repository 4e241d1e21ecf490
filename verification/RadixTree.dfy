/** A four-level radix tree over page links: which page each path from the root reaches, and what
    one new link changes. Nothing here depends on how rows are encoded. */
module RadixTree {
  import opened Wrappers
  import opened PhysicalMemory

  const VPN_LIMIT: nat := 0x10_0000_0000

  /** The page that row `slot` of page `table` leads to, keyed by `(table, slot)`. */
  type Links = imap<(nat, nat), nat>

  /** The leading `9 * depth` bits of a virtual page number. */
  function Prefix(vpn: nat, depth: nat): nat
    requires depth <= 4
    decreases 4 - depth, vpn
  {
    if depth == 4 then vpn else Prefix(vpn, depth + 1) / 512
  }

  /** The row used by the table at `level`. */
  function Slot(vpn: nat, level: nat): (i: nat)
    requires level < 4
    ensures i < ROW_COUNT
  {
    Prefix(vpn, level + 1) % 512
  }

  ghost function Child(links: Links, table: nat, slot: nat): Option<nat>
  {
    if (table, slot) in links then Some(links[(table, slot)]) else None
  }

  /** The page reached from the root after `depth` rows: a table up to depth 3, a frame at depth 4. */
  ghost function Reach(links: Links, root: nat, depth: nat, vpn: nat): Option<nat>
    requires depth <= 4
    decreases depth, vpn
  {
    if depth == 0 then Some(root)
    else
      var table := Reach(links, root, depth - 1, vpn);
      if table.None? then None else Child(links, table.value, Slot(vpn, depth - 1))
  }

  /** Every page in the tree is recorded. */
  ghost predicate Recorded(links: Links, root: nat, pages: seq<nat>)
  {
    forall d: nat, v: nat | d <= 4 && v < VPN_LIMIT && Reach(links, root, d, v).Some? ::
      Reach(links, root, d, v).value in pages
  }

  /** Two page numbers have the same path of `d` rows. */
  predicate SamePath(d: nat, v: nat, d': nat, v': nat)
    requires d <= 4 && d' <= 4
  {
    d == d' && Prefix(v, d) == Prefix(v', d')
  }

  /** No page is reached along two different paths, at one depth or at two. */
  ghost predicate OnePath(links: Links, root: nat)
  {
    forall d: nat, v: nat, d': nat, v': nat {:trigger SamePath(d, v, d', v')}
      | d <= 4 && d' <= 4 && v < VPN_LIMIT && v' < VPN_LIMIT && Reach(links, root, d, v).Some?
        && Reach(links, root, d, v) == Reach(links, root, d', v') ::
      SamePath(d, v, d', v')
  }

  // ---- Paths ----

  lemma {:induction false} SamePrefixSamePath(links: Links, root: nat, d: nat, v: nat, v': nat)
    requires d <= 4 && Prefix(v, d) == Prefix(v', d)
    ensures Reach(links, root, d, v) == Reach(links, root, d, v')
    decreases d
  {
    if d > 0 {
      SamePrefixSamePath(links, root, d - 1, v, v');
    }
  }

  lemma RootPrefix(v: nat)
    requires v < VPN_LIMIT
    ensures Prefix(v, 0) == 0
  {
    assert Prefix(v, 3) == v / 512;
    assert Prefix(v, 2) == v / 0x4_0000;
    assert Prefix(v, 1) == v / 0x800_0000;
  }

  lemma DeeperPrefix(v: nat, v': nat, d: nat)
    requires d < 4
    ensures Prefix(v, d + 1) == Prefix(v', d + 1) <==> Prefix(v, d) == Prefix(v', d) && Slot(v, d) == Slot(v', d)
  {
  }

  lemma {:induction false} NoneStaysNone(links: Links, root: nat, d: nat, v: nat)
    requires d <= 4 && Reach(links, root, d, v).None?
    ensures Reach(links, root, 4, v).None?
    decreases 4 - d
  {
    if d < 4 {
      NoneStaysNone(links, root, d + 1, v);
    }
  }

  /** Two link maps agree on every table of the tree. */
  ghost predicate SameTables(links: Links, links': Links, root: nat)
  {
    forall d: nat, v: nat, s: nat | d < 4 && v < VPN_LIMIT && s < ROW_COUNT && Reach(links, root, d, v).Some? ::
      Child(links', Reach(links, root, d, v).value, s) == Child(links, Reach(links, root, d, v).value, s)
  }

  /** The tree depends only on its tables. */
  lemma {:induction false} ReachFrame(links: Links, links': Links, root: nat, d: nat, v: nat)
    requires SameTables(links, links', root) && d <= 4 && v < VPN_LIMIT
    ensures Reach(links', root, d, v) == Reach(links, root, d, v)
    decreases d
  {
    if d > 0 {
      ReachFrame(links, links', root, d - 1, v);
    }
  }

  // ---- One new link ----

  /** `table` is at depth `d` on the path of `vpn`, and on no other path. */
  ghost predicate OnlyPath(links: Links, root: nat, table: nat, d: nat, vpn: nat)
    requires d <= 4
  {
    && Reach(links, root, d, vpn) == Some(table)
    && forall d': nat, v: nat | d' <= 4 && v < VPN_LIMIT && Reach(links, root, d', v) == Some(table) ::
         d' == d && Prefix(v, d) == Prefix(vpn, d)
  }

  /** Where each path leads once row `Slot(vpn, d)` of the table on the path of `vpn` points to
      `page`: through the new link to that page and no further. */
  ghost function ReachAfter(links: Links, root: nat, d: nat, vpn: nat, page: nat, d': nat, v: nat): Option<nat>
    requires d < 4 && d' <= 4
  {
    if d' > d && Prefix(v, d + 1) == Prefix(vpn, d + 1) then
      if d' == d + 1 then Some(page) else None
    else Reach(links, root, d', v)
  }

  // Up to the linked table itself nothing moves.
  lemma {:induction false} LinkAbove(links: Links, root: nat, table: nat, d: nat, vpn: nat, page: nat, d': nat, v: nat)
    requires d < 4 && d' <= d && v < VPN_LIMIT && OnlyPath(links, root, table, d, vpn)
    ensures Reach(links[(table, Slot(vpn, d)) := page], root, d', v) == Reach(links, root, d', v)
    decreases d'
  {
    if d' > 0 {
      LinkAbove(links, root, table, d, vpn, page, d' - 1, v);
    }
  }

  // One row further: the new link, or the old row.
  lemma LinkAt(links: Links, root: nat, table: nat, d: nat, vpn: nat, page: nat, v: nat)
    requires d < 4 && v < VPN_LIMIT && OnlyPath(links, root, table, d, vpn)
    ensures Reach(links[(table, Slot(vpn, d)) := page], root, d + 1, v) == ReachAfter(links, root, d, vpn, page, d + 1, v)
  {
    LinkAbove(links, root, table, d, vpn, page, d, v);
    DeeperPrefix(v, vpn, d);
    if Prefix(v, d) == Prefix(vpn, d) {
      SamePrefixSamePath(links, root, d, v, vpn);
    }
  }

  // Beyond: nothing below the new page, everything else as before.
  lemma {:induction false} LinkBelow(links: Links, root: nat, table: nat, d: nat, vpn: nat, page: nat, d': nat, v: nat)
    requires d < 4 && d < d' <= 4 && v < VPN_LIMIT && OnlyPath(links, root, table, d, vpn)
    requires page != table && forall s: nat | s < ROW_COUNT :: Child(links, page, s).None?
    ensures Reach(links[(table, Slot(vpn, d)) := page], root, d', v) == ReachAfter(links, root, d, vpn, page, d', v)
    decreases d'
  {
    if d' == d + 1 {
      LinkAt(links, root, table, d, vpn, page, v);
    } else {
      LinkBelow(links, root, table, d, vpn, page, d' - 1, v);
      assert Child(links, page, Slot(v, d' - 1)).None?;
    }
  }

  lemma LinkReach(links: Links, root: nat, table: nat, d: nat, vpn: nat, page: nat, d': nat, v: nat)
    requires d < 4 && d' <= 4 && v < VPN_LIMIT && OnlyPath(links, root, table, d, vpn)
    requires page != table && forall s: nat | s < ROW_COUNT :: Child(links, page, s).None?
    ensures Reach(links[(table, Slot(vpn, d)) := page], root, d', v) == ReachAfter(links, root, d, vpn, page, d', v)
  {
    if d' <= d {
      LinkAbove(links, root, table, d, vpn, page, d', v);
    } else {
      LinkBelow(links, root, table, d, vpn, page, d', v);
    }
  }

  lemma AfterKeepsOnePath(links: Links, root: nat, pages: seq<nat>, d: nat, vpn: nat, page: nat, d1: nat, v1: nat, d2: nat, v2: nat)
    requires Recorded(links, root, pages) && OnePath(links, root) && page !in pages && d < 4
    requires d1 <= 4 && d2 <= 4 && v1 < VPN_LIMIT && v2 < VPN_LIMIT
    requires ReachAfter(links, root, d, vpn, page, d1, v1).Some?
    requires ReachAfter(links, root, d, vpn, page, d1, v1) == ReachAfter(links, root, d, vpn, page, d2, v2)
    ensures SamePath(d1, v1, d2, v2)
  {
  }

  /** A new link to an unrecorded page without links of its own changes exactly the paths through it,
      and the tree stays a tree. */
  lemma LinkKeepsTree(links: Links, root: nat, pages: seq<nat>, table: nat, d: nat, vpn: nat, page: nat)
    requires Recorded(links, root, pages) && OnePath(links, root)
    requires d < 4 && vpn < VPN_LIMIT && Reach(links, root, d, vpn) == Some(table)
    requires page !in pages && forall s: nat | s < ROW_COUNT :: Child(links, page, s).None?
    ensures var links' := links[(table, Slot(vpn, d)) := page];
            && Recorded(links', root, pages + [page])
            && OnePath(links', root)
            && forall d': nat, v: nat | d' <= 4 && v < VPN_LIMIT ::
                 Reach(links', root, d', v) == ReachAfter(links, root, d, vpn, page, d', v)
  {
    var links' := links[(table, Slot(vpn, d)) := page];
    forall d': nat, v: nat | d' <= 4 && v < VPN_LIMIT && Reach(links, root, d', v) == Some(table)
      ensures d' == d && Prefix(v, d) == Prefix(vpn, d)
    {
      assert SamePath(d', v, d, vpn);
    }
    forall d': nat, v: nat | d' <= 4 && v < VPN_LIMIT
      ensures Reach(links', root, d', v) == ReachAfter(links, root, d, vpn, page, d', v)
    {
      LinkReach(links, root, table, d, vpn, page, d', v);
    }
    forall d1: nat, v1: nat, d2: nat, v2: nat
      | d1 <= 4 && d2 <= 4 && v1 < VPN_LIMIT && v2 < VPN_LIMIT && Reach(links', root, d1, v1).Some?
        && Reach(links', root, d1, v1) == Reach(links', root, d2, v2)
      ensures SamePath(d1, v1, d2, v2)
    {
      assert Reach(links', root, d1, v1) == ReachAfter(links, root, d, vpn, page, d1, v1);
      assert Reach(links', root, d2, v2) == ReachAfter(links, root, d, vpn, page, d2, v2);
      AfterKeepsOnePath(links, root, pages, d, vpn, page, d1, v1, d2, v2);
    }
  }

  /** A new table on a path that ended there leaves every frame where it was. */
  lemma TableLinkKeepsFrames(links: Links, links': Links, root: nat, d: nat, vpn: nat, page: nat)
    requires d < 3 && vpn < VPN_LIMIT && Reach(links, root, d + 1, vpn).None?
    requires forall d': nat, v: nat | d' <= 4 && v < VPN_LIMIT :: Reach(links', root, d', v) == ReachAfter(links, root, d, vpn, page, d', v)
    ensures Reach(links', root, d + 1, vpn) == Some(page)
    ensures forall v: nat | v < VPN_LIMIT :: Reach(links', root, 4, v) == Reach(links, root, 4, v)
  {
    assert Reach(links', root, d + 1, vpn) == ReachAfter(links, root, d, vpn, page, d + 1, vpn);
    forall v: nat | v < VPN_LIMIT
      ensures Reach(links', root, 4, v) == Reach(links, root, 4, v)
    {
      if Prefix(v, d + 1) == Prefix(vpn, d + 1) {
        SamePrefixSamePath(links, root, d + 1, v, vpn);
        NoneStaysNone(links, root, d + 1, v);
      }
    }
  }

  /** In such a tree every page has one parent row. */
  lemma OneParentRow(links: Links, root: nat, d: nat, v: nat, d': nat, v': nat, s: nat, s': nat)
    requires OnePath(links, root)
    requires d < 4 && d' < 4 && v < VPN_LIMIT && v' < VPN_LIMIT && s < ROW_COUNT && s' < ROW_COUNT
    requires Reach(links, root, d, v).Some? && Reach(links, root, d', v').Some?
    requires Child(links, Reach(links, root, d, v).value, s).Some?
    requires Child(links, Reach(links, root, d, v).value, s) == Child(links, Reach(links, root, d', v').value, s')
    ensures Reach(links, root, d, v) == Reach(links, root, d', v') && s == s'
  {
    var w, w' := WithSlot(v, d, s), WithSlot(v', d', s');
    SamePrefixSamePath(links, root, d, v, w);
    SamePrefixSamePath(links, root, d', v', w');
    assert Reach(links, root, d + 1, w) == Reach(links, root, d' + 1, w');
    assert SamePath(d + 1, w, d' + 1, w');
    DeeperPrefix(w, w', d);
    SamePrefixSamePath(links, root, d, w, w');
  }

  /** A page number that leads into row `s` of the table at depth `d` on the path of `v`. */
  function WithSlot(v: nat, d: nat, s: nat): (w: nat)
    requires d < 4 && v < VPN_LIMIT && s < ROW_COUNT
    ensures w < VPN_LIMIT && Prefix(w, d) == Prefix(v, d) && Slot(w, d) == s
  {
    RootPrefix(v);
    PrefixPowers(v);
    if d == 0 then PrefixPowers(s * 0x800_0000); s * 0x800_0000
    else if d == 1 then PrefixPowers((Prefix(v, 1) * 512 + s) * 0x4_0000); (Prefix(v, 1) * 512 + s) * 0x4_0000
    else if d == 2 then PrefixPowers((Prefix(v, 2) * 512 + s) * 0x200); (Prefix(v, 2) * 512 + s) * 0x200
    else PrefixPowers(Prefix(v, 3) * 512 + s); Prefix(v, 3) * 512 + s
  }

  lemma PrefixPowers(v: nat)
    ensures Prefix(v, 4) == v && Prefix(v, 3) == v / 0x200 && Prefix(v, 2) == v / 0x4_0000
    ensures Prefix(v, 1) == v / 0x800_0000 && Prefix(v, 0) == v / 0x10_0000_0000
  {
    assert Prefix(v, 4) == v;
    assert Prefix(v, 3) == v / 0x200;
    assert Prefix(v, 2) == v / 0x4_0000;
    assert Prefix(v, 1) == v / 0x800_0000;
  }

  /** A root without links. */
  lemma BareRoot(links: Links, root: nat)
    requires forall s: nat | s < ROW_COUNT :: Child(links, root, s).None?
    ensures forall d: nat, v: nat | 1 <= d <= 4 && v < VPN_LIMIT :: Reach(links, root, d, v).None?
    ensures Recorded(links, root, [root]) && OnePath(links, root) && PageMapOf(links, root) == map[]
  {
    forall d: nat, v: nat | 1 <= d <= 4 && v < VPN_LIMIT
      ensures Reach(links, root, d, v).None?
    {
      NothingBelow(links, root, d, v);
    }
    forall v: nat | v < VPN_LIMIT
      ensures Prefix(v, 0) == 0
    {
      RootPrefix(v);
    }
  }

  lemma {:induction false} NothingBelow(links: Links, root: nat, d: nat, v: nat)
    requires forall s: nat | s < ROW_COUNT :: Child(links, root, s).None?
    requires 1 <= d <= 4
    ensures Reach(links, root, d, v).None?
    decreases d
  {
    if d > 1 {
      NothingBelow(links, root, d - 1, v);
    } else {
      assert Reach(links, root, 1, v) == Child(links, root, Slot(v, 0));
    }
  }

  // ---- The page map ----

  /** Virtual page number to frame. */
  ghost function PageMapOf(links: Links, root: nat): map<nat, nat>
  {
    map v: nat | v < VPN_LIMIT && Reach(links, root, 4, v).Some? :: Reach(links, root, 4, v).value
  }

  lemma SamePageMap(links: Links, links': Links, root: nat)
    requires forall v: nat | v < VPN_LIMIT :: Reach(links', root, 4, v) == Reach(links, root, 4, v)
    ensures PageMapOf(links', root) == PageMapOf(links, root)
  {
  }

  lemma PageMapInsertion(links: Links, links': Links, root: nat, vpn: nat, page: nat)
    requires vpn < VPN_LIMIT
    requires forall v: nat | v < VPN_LIMIT ::
               Reach(links', root, 4, v) == if v == vpn then Some(page) else Reach(links, root, 4, v)
    ensures PageMapOf(links', root) == PageMapOf(links, root)[vpn := page]
  {
    var m, m' := PageMapOf(links, root), PageMapOf(links', root);
    assert m'.Keys == m.Keys + {vpn};
  }
}
