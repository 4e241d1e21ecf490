/** The load loop and the stack page of `TaskExecutionService::execute`
    (kernel/src/task/aarch64/task_execution.rs), from the file's bytes to what the task reads. */
module Loader {
  import opened Wrappers
  import opened PhysicalMemory
  import opened FileContents
  import opened PageTable
  import opened PageAllocator
  import opened RadixTree
  import opened Translation
  import opened AddressSpace
  import opened UserMemory
  import opened Elf

  const STACK_INIT: nat := 0x8000_0000

  // ---- On values ----

  /** One turn of the loop: `alloc_page`, then `copy_to_user`. A fault would be an error here; none occurs. */
  ghost function LoadChunk(layout: Layout, s: Vm, root: nat, c: Chunk): (Vm, Result<()>)
    requires VmOk(layout, s, root)
  {
    var (s1, frame) := AllocPage(layout, s, root, c.address);
    var mem := CopyToUser(s1.mem, root, c.address, c.bytes);
    if frame.Err? || mem.None? then (s1, Err) else (s1.(mem := mem.value), Ok(()))
  }

  /** A chunk is not empty and lies in one page. */
  predicate OnePage(c: Chunk)
  {
    |c.bytes| > 0 && c.address / PAGE_SIZE == (c.address + |c.bytes| - 1) / PAGE_SIZE
  }

  lemma InsertedBytes(s: Vm, s': Vm, root: nat, vpn: nat, r: Result<nat>, va: nat)
    requires ContextOk(s.mem, root, s.pages) && FramesKept(s.mem, s'.mem, root) && Inserted(s, s', root, vpn, r)
    requires vpn < VPN_LIMIT
    ensures r.Ok? ==> Reach(LinksOf(s'.mem), root, 4, vpn).Some?
    ensures UserByte(s'.mem, root, va) ==
            if r.Ok? && va / PAGE_SIZE == vpn && UserByte(s.mem, root, va).None? then Some(0) else UserByte(s.mem, root, va)
  {
    TranslateIsFrame(s.mem, root, s.pages, va);
    if va < VA_LIMIT {
      assert va / PAGE_SIZE < VPN_LIMIT;
      assert FrameKept(s.mem, s'.mem, Reach(LinksOf(s.mem), root, 4, va / PAGE_SIZE));
    }
  }

  /** Mapping a page changes no byte that was there and zeroes the ones that were not. */
  lemma AllocPageBytes(layout: Layout, s: Vm, root: nat, address: nat, va: nat)
    requires VmOk(layout, s, root)
    ensures var (s', r) := AllocPage(layout, s, root, address);
            && VmOk(layout, s', root)
            && (r.Ok? ==> address < VA_LIMIT && Reach(LinksOf(s'.mem), root, 4, address / PAGE_SIZE).Some?)
            && UserByte(s'.mem, root, va) ==
               if r.Ok? && va / PAGE_SIZE == address / PAGE_SIZE && UserByte(s.mem, root, va).None? then Some(0)
               else UserByte(s.mem, root, va)
  {
    if address < VA_LIMIT {
      AtRoot(s, root, address);
      AllocFromRefines(layout, s, root, TableManager(root, LEVEL_ROOT, 0), address);
      var (s', r) := AllocPage(layout, s, root, address);
      InsertedBytes(s, s', root, address / PAGE_SIZE, r, va);
    }
  }

  lemma OnePageMapped(mem: Memory, root: nat, c: Chunk)
    requires OnePage(c) && c.address < VA_LIMIT && Reach(LinksOf(mem), root, 4, c.address / PAGE_SIZE).Some?
    ensures Mapped(mem, root, c.address, |c.bytes|)
  {
    forall va | c.address <= va < c.address + |c.bytes|
      ensures Frame(mem, root, va).Some?
    {
      assert va / PAGE_SIZE == c.address / PAGE_SIZE;
    }
  }

  /** What one chunk makes of the byte at `va`. */
  function Over(base: Option<Byte>, c: Chunk, va: nat): Option<Byte>
  {
    if c.address <= va < c.address + |c.bytes| then Some(c.bytes[va - c.address])
    else if va / PAGE_SIZE == c.address / PAGE_SIZE && base.None? then Some(0)
    else base
  }

  /** A turn of the loop fails only if `alloc_page` does: the copy finds its whole target mapped. */
  lemma LoadChunkMeaning(layout: Layout, s: Vm, root: nat, c: Chunk, va: nat)
    requires VmOk(layout, s, root) && OnePage(c)
    ensures var (s', r) := LoadChunk(layout, s, root, c);
            && VmOk(layout, s', root)
            && (r.Ok? <==> AllocPage(layout, s, root, c.address).1.Ok?)
            && (r.Ok? ==> UserByte(s'.mem, root, va) == Over(UserByte(s.mem, root, va), c, va))
  {
    AllocPageBytes(layout, s, root, c.address, va);
    var (s1, frame) := AllocPage(layout, s, root, c.address);
    if frame.Ok? {
      OnePageMapped(s1.mem, root, c);
      CopyToUserMeaning(s1.mem, root, s1.pages, c.address, c.bytes, va);
    }
  }

  ghost function LoadAll(layout: Layout, s: Vm, root: nat, chunks: seq<Chunk>): (Vm, Result<()>)
    requires VmOk(layout, s, root) && forall c | c in chunks :: OnePage(c)
    decreases |chunks|
  {
    if |chunks| == 0 then (s, Ok(()))
    else
      assert OnePage(chunks[0]);
      LoadChunkMeaning(layout, s, root, chunks[0], 0);
      var (s1, r) := LoadChunk(layout, s, root, chunks[0]);
      if r.Err? then (s1, Err) else LoadAll(layout, s1, root, chunks[1..])
  }

  /** The byte at `va` after all chunks. */
  function Overlay(base: Option<Byte>, chunks: seq<Chunk>, va: nat): Option<Byte>
    decreases |chunks|
  {
    if |chunks| == 0 then base else Overlay(Over(base, chunks[0], va), chunks[1..], va)
  }

  lemma {:induction false} LoadAllIsOverlay(layout: Layout, s: Vm, root: nat, chunks: seq<Chunk>, va: nat)
    requires VmOk(layout, s, root) && forall c | c in chunks :: OnePage(c)
    ensures var (s', r) := LoadAll(layout, s, root, chunks);
            && VmOk(layout, s', root)
            && (r.Ok? ==> UserByte(s'.mem, root, va) == Overlay(UserByte(s.mem, root, va), chunks, va))
    decreases |chunks|
  {
    if |chunks| > 0 {
      assert OnePage(chunks[0]);
      LoadChunkMeaning(layout, s, root, chunks[0], va);
      var (s1, r) := LoadChunk(layout, s, root, chunks[0]);
      if r.Ok? {
        LoadAllIsOverlay(layout, s1, root, chunks[1..], va);
      }
    }
  }

  /** The loop and then the stack page below `STACK_INIT`. */
  ghost function Load(layout: Layout, s: Vm, root: nat, chunks: seq<Chunk>): (Vm, Result<()>)
    requires VmOk(layout, s, root) && forall c | c in chunks :: OnePage(c)
  {
    LoadAllIsOverlay(layout, s, root, chunks, 0);
    var (s1, r) := LoadAll(layout, s, root, chunks);
    if r.Err? then (s1, Err)
    else
      var (s2, frame) := AllocPage(layout, s1, root, STACK_INIT - PAGE_SIZE);
      (s2, if frame.Ok? then Ok(()) else Err)
  }

  // ---- From chunks to segments ----

  lemma {:induction false} OverlayConcat(base: Option<Byte>, a: seq<Chunk>, b: seq<Chunk>, va: nat)
    ensures Overlay(base, a + b, va) == Overlay(Overlay(base, a, va), b, va)
    decreases |a|
  {
    if |a| == 0 {
      assert a + b == b;
    } else {
      assert (a + b)[1..] == a[1..] + b;
      OverlayConcat(Over(base, a[0], va), a[1..], b, va);
    }
  }

  predicate Loadable(p: ProgramHeader)
  {
    p.segmentType == TYPE_LOAD && p.memorySize > 0
  }

  predicate InSegment(p: ProgramHeader, va: nat)
  {
    Loadable(p) && p.virtualAddress <= va < p.virtualAddress + p.memorySize
  }

  /** `va` lies in a page that the segment touches. */
  predicate Touches(p: ProgramHeader, va: nat)
  {
    Loadable(p) && p.virtualAddress / PAGE_SIZE <= va / PAGE_SIZE <= (p.virtualAddress + p.memorySize - 1) / PAGE_SIZE
  }

  /** What a whole segment makes of the byte at `va`. */
  function OverSegment(base: Option<Byte>, content: Bytes, p: ProgramHeader, va: nat): Option<Byte>
  {
    if InSegment(p, va) then Some(SegmentByte(content, p, va - p.virtualAddress))
    else if Touches(p, va) && base.None? then Some(0)
    else base
  }

  // One page of a segment.
  lemma OverPage(base: Option<Byte>, content: Bytes, p: ProgramHeader, i: nat, va: nat)
    requires Readable(content, p) && PageRange(p, i).Some?
    ensures PageRange(p, i).value.0.start <= PageRange(p, i).value.0.end
    ensures OnePage(ChunkOf(content, PageRange(p, i).value))
    ensures Over(base, ChunkOf(content, PageRange(p, i).value), va) ==
            if va / PAGE_SIZE == p.virtualAddress / PAGE_SIZE + i then OverSegment(base, content, p, va) else base
  {
    Tiling(p, i);
    var c := ChunkOf(content, PageRange(p, i).value);
    ChunkBytes(content, p, i, if c.address <= va then va - c.address else 0);
    assert c.address <= va < c.address + |c.bytes| <==> InSegment(p, va) && va / PAGE_SIZE == p.virtualAddress / PAGE_SIZE + i;
    assert c.address / PAGE_SIZE == p.virtualAddress / PAGE_SIZE + i;
  }

  lemma {:induction false} OverlaySegment(base: Option<Byte>, content: Bytes, p: ProgramHeader, page: nat, va: nat)
    requires Readable(content, p)
    ensures forall c | c in SegmentChunks(content, p, page) :: OnePage(c)
    ensures Overlay(base, SegmentChunks(content, p, page), va) ==
            if va / PAGE_SIZE >= p.virtualAddress / PAGE_SIZE + page then OverSegment(base, content, p, va) else base
    decreases PageCount(p) - page
  {
    Tiling(p, page);
    if PageRange(p, page).Some? {
      OverPage(base, content, p, page, va);
      var first := ChunkOf(content, PageRange(p, page).value);
      OverlaySegment(Over(base, first, va), content, p, page + 1, va);
      assert SegmentChunks(content, p, page)[1..] == SegmentChunks(content, p, page + 1);
    }
  }

  /** What all headers from `index` on make of the byte at `va`, in their order. */
  function OverHeaders(base: Option<Byte>, content: Bytes, headers: seq<ProgramHeader>, index: nat, va: nat): Option<Byte>
    decreases |headers| - index
  {
    if index >= |headers| then base
    else OverHeaders(OverSegment(base, content, headers[index], va), content, headers, index + 1, va)
  }

  lemma {:induction false} OverlayHeaders(base: Option<Byte>, content: Bytes, headers: seq<ProgramHeader>, index: nat, va: nat)
    requires AllReadable(content, headers)
    ensures forall c | c in Remaining(content, headers, index, 0) :: OnePage(c)
    ensures Overlay(base, Remaining(content, headers, index, 0), va) == OverHeaders(base, content, headers, index, va)
    decreases |headers| - index
  {
    if index < |headers| {
      var p := headers[index];
      assert Readable(content, p);
      OverlayConcat(base, SegmentChunks(content, p, 0), Remaining(content, headers, index + 1, 0), va);
      OverlaySegment(base, content, p, 0, va);
      OverlayHeaders(OverSegment(base, content, p, va), content, headers, index + 1, va);
    }
  }

  /** No two loadable segments share an address; they may share pages. */
  ghost predicate Disjoint(headers: seq<ProgramHeader>)
  {
    forall i, j, va | 0 <= i < j < |headers| && InSegment(headers[i], va) :: !InSegment(headers[j], va)
  }

  lemma {:induction false} OverHeadersOutside(base: Option<Byte>, content: Bytes, headers: seq<ProgramHeader>, index: nat, va: nat)
    requires forall j | index <= j < |headers| :: !InSegment(headers[j], va)
    ensures OverHeaders(base, content, headers, index, va) ==
            if base.None? && (exists j :: index <= j < |headers| && Touches(headers[j], va)) then Some(0) else base
    decreases |headers| - index
  {
    if index < |headers| {
      OverHeadersOutside(OverSegment(base, content, headers[index], va), content, headers, index + 1, va);
    }
  }

  lemma {:induction false} OverHeadersInside(base: Option<Byte>, content: Bytes, headers: seq<ProgramHeader>, index: nat, j: nat, va: nat)
    requires index <= j < |headers| && InSegment(headers[j], va)
    requires forall k | index <= k < |headers| && k != j :: !InSegment(headers[k], va)
    ensures OverHeaders(base, content, headers, index, va) == Some(SegmentByte(content, headers[j], va - headers[j].virtualAddress))
    decreases |headers| - index
  {
    if index == j {
      OverHeadersOutside(OverSegment(base, content, headers[j], va), content, headers, index + 1, va);
    } else {
      OverHeadersInside(OverSegment(base, content, headers[index], va), content, headers, index + 1, j, va);
    }
  }

  // ---- End to end ----

  /** The file holds every loadable segment's bytes. */
  ghost predicate InFile(content: Bytes, headers: seq<ProgramHeader>)
  {
    forall p | p in headers && Loadable(p) :: p.fileOffset + p.fileSize <= |content|
  }

  lemma InFileIsReadable(content: Bytes, headers: seq<ProgramHeader>)
    requires InFile(content, headers)
    ensures AllReadable(content, headers)
  {
    forall p | p in headers
      ensures Readable(content, p)
    {
      forall i: nat | PageRange(p, i).Some?
        ensures PageRange(p, i).value.0.start <= |content|
      {
        Tiling(p, i);
      }
    }
  }

  /** The address space after `execute` has loaded the segments, in terms of the file and of the
      address space before. */
  ghost function Expected(was: Option<Byte>, content: Bytes, headers: seq<ProgramHeader>, va: nat): Option<Byte>
  {
    if exists j :: 0 <= j < |headers| && InSegment(headers[j], va) then
      var j :| 0 <= j < |headers| && InSegment(headers[j], va);
      var k := va - headers[j].virtualAddress;
      if k >= headers[j].fileSize then Some(0)
      else if headers[j].fileOffset + k < |content| then Some(content[headers[j].fileOffset + k])
      else None
    else if was.Some? then was
    else if va / PAGE_SIZE == STACK_INIT / PAGE_SIZE - 1 || exists j :: 0 <= j < |headers| && Touches(headers[j], va) then Some(0)
    else None
  }

  lemma OverHeadersIsExpected(was: Option<Byte>, content: Bytes, headers: seq<ProgramHeader>, va: nat)
    requires Disjoint(headers) && InFile(content, headers)
    ensures var loaded := OverHeaders(was, content, headers, 0, va);
            (if loaded.None? && va / PAGE_SIZE == STACK_INIT / PAGE_SIZE - 1 then Some(0) else loaded) ==
            Expected(was, content, headers, va)
  {
    if exists j :: 0 <= j < |headers| && InSegment(headers[j], va) {
      var j :| 0 <= j < |headers| && InSegment(headers[j], va);
      OverHeadersInside(was, content, headers, 0, j, va);
      assert headers[j] in headers;
    } else {
      OverHeadersOutside(was, content, headers, 0, va);
    }
  }

  /** For disjoint segments that fit in the file: if loading succeeds, the task reads each segment
      byte through its tables as the file's byte, or as zero past the file size, also where segments
      share a page; every other byte is as before, or zero if its page is new. */
  lemma LoadedProgram(layout: Layout, s: Vm, root: nat, content: Bytes, headers: seq<ProgramHeader>, va: nat)
    requires VmOk(layout, s, root) && Disjoint(headers) && InFile(content, headers)
    ensures AllReadable(content, headers) && forall c | c in Remaining(content, headers, 0, 0) :: OnePage(c)
    ensures var (s', r) := Load(layout, s, root, Remaining(content, headers, 0, 0));
            && VmOk(layout, s', root)
            && (r.Ok? ==> UserByte(s'.mem, root, va) == Expected(UserByte(s.mem, root, va), content, headers, va))
  {
    InFileIsReadable(content, headers);
    var was := UserByte(s.mem, root, va);
    OverlayHeaders(was, content, headers, 0, va);
    var chunks := Remaining(content, headers, 0, 0);
    LoadAllIsOverlay(layout, s, root, chunks, va);
    var (s1, r1) := LoadAll(layout, s, root, chunks);
    if r1.Ok? {
      AllocPageBytes(layout, s1, root, STACK_INIT - PAGE_SIZE, va);
      OverHeadersIsExpected(was, content, headers, va);
    }
  }

  /** What `execute` promises of the task's memory: every byte is what the segments in the file say. */
  ghost predicate Runs(was: Vm, now: Vm, root: nat, content: Bytes, headers: seq<ProgramHeader>)
  {
    forall va: nat :: UserByte(now.mem, root, va) == Expected(UserByte(was.mem, root, va), content, headers, va)
  }

  lemma LoadRuns(layout: Layout, s: Vm, root: nat, content: Bytes, headers: seq<ProgramHeader>)
    requires VmOk(layout, s, root) && Disjoint(headers) && InFile(content, headers)
    ensures AllReadable(content, headers) && forall c | c in Remaining(content, headers, 0, 0) :: OnePage(c)
    ensures var (s', r) := Load(layout, s, root, Remaining(content, headers, 0, 0));
            r.Ok? ==> Runs(s, s', root, content, headers)
  {
    LoadedProgram(layout, s, root, content, headers, 0);
    var (s', r) := Load(layout, s, root, Remaining(content, headers, 0, 0));
    if r.Ok? {
      forall va: nat
        ensures UserByte(s'.mem, root, va) == Expected(UserByte(s.mem, root, va), content, headers, va)
      {
        LoadedProgram(layout, s, root, content, headers, va);
      }
    }
  }

  lemma ExpectedInside(was: Option<Byte>, content: Bytes, headers: seq<ProgramHeader>, j: nat, k: nat)
    requires Disjoint(headers) && InFile(content, headers) && j < |headers| && Loadable(headers[j]) && k < headers[j].memorySize
    ensures Expected(was, content, headers, headers[j].virtualAddress + k) == Some(SegmentByte(content, headers[j], k))
    ensures k < headers[j].fileSize ==> headers[j].fileOffset + k < |content|
  {
    var va := headers[j].virtualAddress + k;
    assert InSegment(headers[j], va) && headers[j] in headers;
    OverHeadersInside(was, content, headers, 0, j, va);
    OverHeadersIsExpected(was, content, headers, va);
  }

  /** The same through the hardware walk: every segment byte translates, and the byte at the
      translated address is the file's byte, or zero past the file size. */
  lemma SegmentsTranslate(layout: Layout, was: Vm, now: Vm, root: nat, content: Bytes, headers: seq<ProgramHeader>, j: nat, k: nat)
    requires VmOk(layout, now, root) && Runs(was, now, root, content, headers)
    requires Disjoint(headers) && InFile(content, headers)
    requires j < |headers| && Loadable(headers[j]) && k < headers[j].memorySize
    ensures k < headers[j].fileSize ==> headers[j].fileOffset + k < |content|
    ensures var t := Translate(now.mem, root, headers[j].virtualAddress + k);
            t.Some? && LoadByte(now.mem, t.value.address) ==
                       Some(if k < headers[j].fileSize then content[headers[j].fileOffset + k] else 0)
  {
    var va := headers[j].virtualAddress + k;
    ExpectedInside(UserByte(was.mem, root, va), content, headers, j, k);
    TranslatedLoad(layout, now, root, va, SegmentByte(content, headers[j], k));
  }

  lemma TranslatedLoad(layout: Layout, s: Vm, root: nat, va: nat, b: Byte)
    requires VmOk(layout, s, root) && UserByte(s.mem, root, va) == Some(b)
    ensures Translate(s.mem, root, va).Some? && LoadByte(s.mem, Translate(s.mem, root, va).value.address) == Some(b)
  {
    UserAccessIsTranslatedAccess(s.mem, root, s.pages, va, 0);
  }
}
