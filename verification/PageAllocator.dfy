/** The bump page allocator of kernel/src/memory/page.rs. */
module PageAllocator {
  import opened Bits
  import opened Wrappers
  import opened PhysicalMemory

  /** What an allocator is created with. */
  datatype Layout = Layout(capacity: nat, reserved: seq<Range>)

  /** The four-point test of the retry loop. */
  predicate FourPoint(page: nat, r: Range)
    requires r.end > 0
  {
    || page <= r.start < page + PAGE_SIZE
    || page <= r.end - 1 < page + PAGE_SIZE
    || r.start <= page < r.end
    || r.start <= page + PAGE_SIZE - 1 < r.end
  }

  predicate Contains(r: Range, address: nat)
  {
    r.start <= address < r.end
  }

  /** The page and the range share an address. */
  predicate Overlaps(page: nat, r: Range)
  {
    exists address | page <= address < page + PAGE_SIZE :: Contains(r, address)
  }

  /** `range.end - 1` must not underflow. */
  predicate ValidLayout(layout: Layout)
  {
    forall i | 0 <= i < |layout.reserved| :: layout.reserved[i].end > 0
  }

  predicate Blocked(layout: Layout, page: nat)
    requires ValidLayout(layout)
  {
    exists i | 0 <= i < |layout.reserved| :: FourPoint(page, layout.reserved[i])
  }

  /** Where the allocator ends up when it starts at `from`: the page it hands out, and its new cursor. */
  function Scan(layout: Layout, from: nat): (r: (Option<nat>, nat))
    requires ValidLayout(layout)
    decreases if from <= layout.capacity then layout.capacity - from else 0
  {
    if from + PAGE_SIZE > layout.capacity then (None, from + PAGE_SIZE)
    else if Blocked(layout, from) then Scan(layout, from + PAGE_SIZE)
    else (Some(from), from + PAGE_SIZE)
  }

  /** The reference: every page at or after `from` that lies within capacity and is not blocked. */
  function UsableFrom(layout: Layout, from: nat): seq<nat>
    requires ValidLayout(layout)
    decreases if from <= layout.capacity then layout.capacity - from else 0
  {
    if from + PAGE_SIZE > layout.capacity then []
    else if Blocked(layout, from) then UsableFrom(layout, from + PAGE_SIZE)
    else [from] + UsableFrom(layout, from + PAGE_SIZE)
  }

  class PageAllocator {
    const ram: Ram
    const layout: Layout
    var cursor: nat

    constructor (ram: Ram, layout: Layout)
      ensures this.ram == ram && this.layout == layout && cursor == 0
    {
      this.ram, this.layout, cursor := ram, layout, 0;
    }

    /** The counter is a `usize`: one more page must not overflow it. */
    ghost predicate NoOverflow()
      reads this
    {
      cursor + PAGE_SIZE < U64 && layout.capacity + PAGE_SIZE < U64
    }

    /** The inner loop over the reserved ranges. */
    method IsBlocked(page: nat) returns (blocked: bool)
      requires ValidLayout(layout)
      ensures blocked == Blocked(layout, page)
    {
      for i := 0 to |layout.reserved|
        invariant forall j | 0 <= j < i :: !FourPoint(page, layout.reserved[j])
      {
        if FourPoint(page, layout.reserved[i]) {
          return true;
        }
      }
      return false;
    }

    /** Hands out the next usable page, zeroed. */
    method Alloc() returns (r: Result<nat>)
      requires ValidLayout(layout) && NoOverflow()
      modifies this`cursor, ram
      ensures cursor == Scan(layout, old(cursor)).1
      ensures Scan(layout, old(cursor)).0.None? ==> r == Err && ram.pages == old(ram.pages)
      ensures Scan(layout, old(cursor)).0.Some? ==>
                && r == Ok(Scan(layout, old(cursor)).0.value)
                && ram.pages == old(ram.pages)[r.value := ZeroPage()]
    {
      var start := cursor;
      while true
        invariant ram.pages == old(ram.pages)
        invariant cursor + PAGE_SIZE < U64
        invariant Scan(layout, cursor) == Scan(layout, old(cursor))
        decreases if cursor <= layout.capacity then layout.capacity - cursor else 0
      {
        start := cursor;
        cursor := cursor + PAGE_SIZE;
        if cursor > layout.capacity {
          return Err;
        }
        var blocked := IsBlocked(start);
        if !blocked {
          break;
        }
      }
      ram.pages := ram.pages[start := ZeroPage()];
      return Ok(start);
    }
  }

  // ---- What the scan means ----

  /** On a non-empty reserved range the four-point test is interval overlap. */
  lemma FourPointIsOverlap(page: nat, r: Range)
    requires r.start < r.end
    ensures FourPoint(page, r) <==> Overlaps(page, r)
  {
    if page <= r.start {
      assert Contains(r, r.start);
    } else if page < r.end {
      assert Contains(r, page);
    }
  }

  /** On an empty range nothing overlaps, and the test rejects exactly the pages that hold either
      of the two points it looks at. */
  lemma FourPointOnEmptyRange(page: nat, r: Range)
    requires r.end > 0 && r.start >= r.end
    ensures !Overlaps(page, r)
    ensures FourPoint(page, r) <==> page <= r.start < page + PAGE_SIZE || page <= r.end - 1 < page + PAGE_SIZE
  {
  }

  /** A call pops the list of usable pages: it fails exactly when the list is empty, and then the
      list stays empty. */
  lemma {:induction false} AllocPopsUsable(layout: Layout, from: nat)
    requires ValidLayout(layout)
    ensures var (r, next) := Scan(layout, from);
            && next > from
            && next % PAGE_SIZE == from % PAGE_SIZE
            && (r.None? <==> UsableFrom(layout, from) == [])
            && (r.Some? ==> UsableFrom(layout, from) == [r.value] + UsableFrom(layout, next) && next == r.value + PAGE_SIZE)
            && (r.None? ==> UsableFrom(layout, next) == [] && next > layout.capacity)
    decreases if from <= layout.capacity then layout.capacity - from else 0
  {
    if from + PAGE_SIZE <= layout.capacity && Blocked(layout, from) {
      AllocPopsUsable(layout, from + PAGE_SIZE);
    }
  }

  /** The list is strictly increasing, aligned like its start, within capacity and unblocked, and
      it misses no such page. */
  lemma {:induction false} UsableIsExact(layout: Layout, from: nat)
    requires ValidLayout(layout)
    ensures var u := UsableFrom(layout, from);
            && (forall p: nat ::
                  p in u <==> p >= from && p % PAGE_SIZE == from % PAGE_SIZE && p + PAGE_SIZE <= layout.capacity && !Blocked(layout, p))
            && (forall i, j | 0 <= i < j < |u| :: u[i] + PAGE_SIZE <= u[j])
    decreases if from <= layout.capacity then layout.capacity - from else 0
  {
    if from + PAGE_SIZE <= layout.capacity {
      UsableIsExact(layout, from + PAGE_SIZE);
      var u, rest := UsableFrom(layout, from), UsableFrom(layout, from + PAGE_SIZE);
      forall p: nat
        ensures p in u <==> p >= from && p % PAGE_SIZE == from % PAGE_SIZE && p + PAGE_SIZE <= layout.capacity && !Blocked(layout, p)
      {
        assert p in rest <==> p >= from + PAGE_SIZE && p % PAGE_SIZE == (from + PAGE_SIZE) % PAGE_SIZE && p + PAGE_SIZE <= layout.capacity && !Blocked(layout, p);
        if p >= from && p % PAGE_SIZE == from % PAGE_SIZE {
          assert p == from || p >= from + PAGE_SIZE;
        }
      }
      if !Blocked(layout, from) {
        assert forall i | 0 <= i < |rest| :: rest[i] in rest;
      }
    }
  }

  // ---- Runs ----

  /** The outcomes of `n` consecutive calls. */
  function AllocRun(layout: Layout, from: nat, n: nat): seq<Option<nat>>
    requires ValidLayout(layout)
    decreases n
  {
    if n == 0 then [] else
    var (r, next) := Scan(layout, from);
    [r] + AllocRun(layout, next, n - 1)
  }

  /** Over any number of calls the i-th outcome is the i-th usable page, and failure from the end
      of the list on. */
  lemma {:induction false} RunReturnsUsablePagesInOrder(layout: Layout, from: nat, n: nat, i: nat)
    requires ValidLayout(layout) && i < n
    ensures |AllocRun(layout, from, n)| == n
    ensures AllocRun(layout, from, n)[i] ==
            var u := UsableFrom(layout, from); if i < |u| then Some(u[i]) else None
    decreases n
  {
    var (r, next) := Scan(layout, from);
    AllocPopsUsable(layout, from);
    var rest := AllocRun(layout, next, n - 1);
    if n > 1 {
      RunReturnsUsablePagesInOrder(layout, next, n - 1, if i > 0 then i - 1 else 0);
    }
    if i > 0 {
      assert AllocRun(layout, from, n)[i] == rest[i - 1];
    }
  }

  /** Page-aligned, within capacity, disjoint from every non-empty reserved range, and strictly
      increasing: all successful results of any run of a new allocator. */
  lemma RunIsSafe(layout: Layout, n: nat, i: nat, j: nat)
    requires forall k | 0 <= k < |layout.reserved| :: layout.reserved[k].start < layout.reserved[k].end
    requires i < n && j < n
    ensures var run := AllocRun(layout, 0, n);
            && |run| == n
            && (run[i].Some? ==>
                  && run[i].value % PAGE_SIZE == 0
                  && run[i].value + PAGE_SIZE <= layout.capacity
                  && forall k | 0 <= k < |layout.reserved| :: !Overlaps(run[i].value, layout.reserved[k]))
            && (i < j && run[i].Some? && run[j].Some? ==> run[i].value + PAGE_SIZE <= run[j].value)
            && (i < j && run[i].None? ==> run[j].None?)
  {
    RunReturnsUsablePagesInOrder(layout, 0, n, i);
    RunReturnsUsablePagesInOrder(layout, 0, n, j);
    UsableIsExact(layout, 0);
    var u := UsableFrom(layout, 0);
    if i < |u| {
      assert u[i] in u;
      forall k | 0 <= k < |layout.reserved|
        ensures !Overlaps(u[i], layout.reserved[k])
      {
        FourPointIsOverlap(u[i], layout.reserved[k]);
      }
    }
  }
}
