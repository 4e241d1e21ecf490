/** ELF files (kernel/src/task/elf.rs): the headers, and the iterator that cuts loadable segments into
    page-bounded chunks. */
module Elf {
  import opened Bits
  import opened Wrappers
  import opened PhysicalMemory
  import opened FileContents
  import opened Tmpfs

  const HEADER_SIZE: nat := 64
  const PROGRAM_HEADER_SIZE: nat := 56
  const TYPE_LOAD: nat := 1

  // ---- Headers ----

  datatype Header = Header(
    magic: Bytes, class_: nat, data: nat, identVersion: nat, abi: nat,
    objectType: nat, machine: nat, version: nat, entryPoint: nat,
    programHeaderOffset: nat, programHeaderEntrySize: nat, programHeaderCount: nat)

  datatype ProgramHeader = ProgramHeader(
    segmentType: nat, flags: nat, fileOffset: nat, virtualAddress: nat,
    physicalAddress: nat, fileSize: nat, memorySize: nat, alignment: nat)

  function Field(bytes: Bytes, offset: nat, width: nat): nat
    requires offset + width <= |bytes|
  {
    FromLittleEndian(bytes[offset..offset + width])
  }

  function ParseHeader(b: Bytes): Header
    requires |b| >= HEADER_SIZE
  {
    Header(b[..4], b[4], b[5], b[6], b[7],
           Field(b, 16, 2), Field(b, 18, 2), Field(b, 20, 4), Field(b, 24, 8),
           Field(b, 32, 8), Field(b, 54, 2), Field(b, 56, 2))
  }

  function ParseProgramHeader(b: Bytes): ProgramHeader
    requires |b| >= PROGRAM_HEADER_SIZE
  {
    ProgramHeader(Field(b, 0, 4), Field(b, 4, 4), Field(b, 8, 8), Field(b, 16, 8),
                  Field(b, 24, 8), Field(b, 32, 8), Field(b, 40, 8), Field(b, 48, 8))
  }

  /** `is_valid` and `is_aarch64` */
  predicate IsValid(h: Header)
  {
    && h.magic == [0x7F, 0x45, 0x4C, 0x46]
    && h.class_ == 2 && h.data == 1 && h.identVersion == 1 && h.abi == 0
    && h.objectType == 2 && h.version == 1
    && h.programHeaderEntrySize == PROGRAM_HEADER_SIZE
    && h.machine == 0xB7
  }

  // ---- The range of one page of a segment ----

  function Min(a: nat, b: nat): nat { if a < b then a else b }

  /** `LoadablePages::range`: file offsets and virtual addresses of a page. */
  function PageRange(p: ProgramHeader, page: nat): Option<(Range, Range)>
  {
    if p.segmentType != TYPE_LOAD then None
    else
      var alignmentOffset := p.virtualAddress % PAGE_SIZE;
      var offsetStart := if page != 0 then page * PAGE_SIZE - alignmentOffset else 0;
      var offsetEnd := page * PAGE_SIZE + PAGE_SIZE - alignmentOffset;
      var file := Range(p.fileOffset + Min(offsetStart, p.fileSize), p.fileOffset + Min(offsetEnd, p.fileSize));
      var memory := Range(p.virtualAddress + Min(offsetStart, p.memorySize), p.virtualAddress + Min(offsetEnd, p.memorySize));
      if memory.start == memory.end then None else Some((file, memory))
  }

  /** How many pages a segment touches. */
  function PageCount(p: ProgramHeader): nat
  {
    if p.segmentType != TYPE_LOAD || p.memorySize == 0 then 0
    else (p.virtualAddress + p.memorySize - 1) / PAGE_SIZE - p.virtualAddress / PAGE_SIZE + 1
  }

  /** The chunks tile the segment: page `i` of it is exactly its addresses in the `i`-th page it
      touches, and headers that are not loadable or are empty have none. */
  lemma Tiling(p: ProgramHeader, i: nat)
    ensures PageRange(p, i).Some? <==> i < PageCount(p)
    ensures PageRange(p, i).Some? ==>
              var memory := PageRange(p, i).value.1;
              && p.virtualAddress <= memory.start < memory.end <= p.virtualAddress + p.memorySize
              && forall a: nat :: memory.start <= a < memory.end <==>
                   p.virtualAddress <= a < p.virtualAddress + p.memorySize && a / PAGE_SIZE == p.virtualAddress / PAGE_SIZE + i
  {
  }

  /** The chunks ascend without gap or overlap, from the first address to the last, and only the
      first may begin inside a page. */
  lemma Ascending(p: ProgramHeader, i: nat)
    requires i < PageCount(p) && PageRange(p, i).Some?
    ensures i == 0 ==> PageRange(p, i).value.1.start == p.virtualAddress
    ensures i > 0 ==> PageRange(p, i).value.1.start % PAGE_SIZE == 0
    ensures i + 1 < PageCount(p) ==> PageRange(p, i + 1).Some? && PageRange(p, i).value.1.end == PageRange(p, i + 1).value.1.start
    ensures i + 1 == PageCount(p) ==> PageRange(p, i).value.1.end == p.virtualAddress + p.memorySize
  {
  }

  /** Where the source's 64-bit sums fit, all that `range` computes up to the end of the segment does. */
  lemma RangeFitsInWords(p: ProgramHeader, i: nat)
    requires p.virtualAddress + p.memorySize < U64 && p.fileOffset + p.fileSize < U64 && p.memorySize + 3 * PAGE_SIZE < U64
    requires p.segmentType == TYPE_LOAD && i <= PageCount(p)
    ensures i * PAGE_SIZE + PAGE_SIZE < U64 && (i != 0 ==> i * PAGE_SIZE >= p.virtualAddress % PAGE_SIZE)
    ensures PageRange(p, i).Some? ==>
              PageRange(p, i).value.0.start <= PageRange(p, i).value.0.end < U64 && PageRange(p, i).value.1.end < U64
  {
  }

  // ---- Chunks ----

  /** A `LoadablePage`. */
  datatype Chunk = Chunk(address: nat, bytes: Bytes)

  /** `resize_with(n, || 0)` */
  function Resized(b: Bytes, n: nat): Bytes
  {
    if |b| < n then b + Zeros(n - |b|) else b[..n]
  }

  /** Every read that the iterator makes for a header begins within the file: beyond it `read` panics. */
  ghost predicate Readable(content: Bytes, p: ProgramHeader)
  {
    forall i: nat | PageRange(p, i).Some? :: PageRange(p, i).value.0.start <= |content|
  }

  ghost predicate AllReadable(content: Bytes, headers: seq<ProgramHeader>)
  {
    forall p | p in headers :: Readable(content, p)
  }

  function ChunkOf(content: Bytes, range: (Range, Range)): Chunk
    requires range.0.start <= range.0.end && range.0.start <= |content| && range.1.start <= range.1.end
  {
    Chunk(range.1.start, Resized(ReadAt(content, range.0.start, range.0.end - range.0.start), range.1.end - range.1.start))
  }

  /** Byte `k` of a segment in memory: the file's byte, or zero beyond what the file holds of it. */
  function SegmentByte(content: Bytes, p: ProgramHeader, k: nat): Byte
  {
    if k < p.fileSize && p.fileOffset + k < |content| then content[p.fileOffset + k] else 0
  }

  /** Each chunk holds exactly its part of the segment. */
  lemma ChunkBytes(content: Bytes, p: ProgramHeader, i: nat, k: nat)
    requires Readable(content, p) && PageRange(p, i).Some?
    ensures PageRange(p, i).value.0.start <= PageRange(p, i).value.0.end
    ensures var chunk := ChunkOf(content, PageRange(p, i).value);
            && |chunk.bytes| == PageRange(p, i).value.1.end - chunk.address
            && (k < |chunk.bytes| ==> chunk.bytes[k] == SegmentByte(content, p, chunk.address - p.virtualAddress + k))
  {
    assert PageRange(p, i).value.0.start <= |content|;
  }

  // ---- What the iterator yields ----

  /** The chunks of one header from page `page` on. */
  ghost function SegmentChunks(content: Bytes, p: ProgramHeader, page: nat): seq<Chunk>
    requires Readable(content, p)
    decreases PageCount(p) - page
  {
    Tiling(p, page);
    if PageRange(p, page).None? then []
    else [ChunkOf(content, PageRange(p, page).value)] + SegmentChunks(content, p, page + 1)
  }

  /** The chunk of page `i`. */
  ghost function ChunkAt(content: Bytes, p: ProgramHeader, i: nat): Chunk
    requires Readable(content, p) && PageRange(p, i).Some?
  {
    assert PageRange(p, i).value.0.start <= |content|;
    ChunkOf(content, PageRange(p, i).value)
  }

  lemma SegmentUnfolds(content: Bytes, p: ProgramHeader, page: nat) returns (first: Chunk, rest: seq<Chunk>)
    requires Readable(content, p) && page < PageCount(p)
    ensures SegmentChunks(content, p, page) == [first] + rest && rest == SegmentChunks(content, p, page + 1)
    ensures PageRange(p, page).Some? && first == ChunkAt(content, p, page)
  {
    Tiling(p, page);
    first, rest := ChunkAt(content, p, page), SegmentChunks(content, p, page + 1);
  }

  /** The chunks of a header are those of its pages in order: as many as it touches. */
  lemma {:induction false} SegmentChunkAt(content: Bytes, p: ProgramHeader, page: nat, i: nat) returns (chunks: seq<Chunk>)
    requires Readable(content, p) && page <= PageCount(p)
    ensures chunks == SegmentChunks(content, p, page) && |chunks| == PageCount(p) - page
    ensures page <= i < PageCount(p) ==> PageRange(p, i).Some? && chunks[i - page] == ChunkAt(content, p, i)
    decreases PageCount(p) - page
  {
    if page == PageCount(p) {
      Tiling(p, page);
      chunks := [];
    } else {
      var first, rest := SegmentUnfolds(content, p, page);
      var tail := SegmentChunkAt(content, p, page + 1, i);
      chunks := [first] + rest;
    }
  }

  predicate Covers(c: Chunk, a: nat) { c.address <= a < c.address + |c.bytes| }

  /** The chunks of a loadable header partition `[p_vaddr, p_vaddr + p_memsz)`: chunk `i` covers the
      addresses of the segment in the `i`-th page that it touches, each with the segment's byte. */
  lemma SegmentIsPartitioned(content: Bytes, p: ProgramHeader, i: nat, a: nat)
    requires Readable(content, p)
    ensures var chunks := SegmentChunks(content, p, 0);
            && |chunks| == PageCount(p)
            && (i < |chunks| ==>
                  && (Covers(chunks[i], a) <==>
                        p.virtualAddress <= a < p.virtualAddress + p.memorySize && a / PAGE_SIZE == p.virtualAddress / PAGE_SIZE + i)
                  && (Covers(chunks[i], a) ==> chunks[i].bytes[a - chunks[i].address] == SegmentByte(content, p, a - p.virtualAddress))
                  && (i + 1 < |chunks| ==> chunks[i].address + |chunks[i].bytes| == chunks[i + 1].address)
                  && (if i == 0 then chunks[i].address == p.virtualAddress else chunks[i].address % PAGE_SIZE == 0)
                  && (i + 1 == |chunks| ==> chunks[i].address + |chunks[i].bytes| == p.virtualAddress + p.memorySize))
  {
    var chunks := SegmentChunkAt(content, p, 0, i);
    var same := SegmentChunkAt(content, p, 0, i + 1);
    if i < PageCount(p) {
      ChunkCovers(content, p, i, a, chunks[i]);
      if i + 1 < PageCount(p) {
        ChunkCovers(content, p, i + 1, a, chunks[i + 1]);
      }
      Ascending(p, i);
    }
  }

  lemma ChunkCovers(content: Bytes, p: ProgramHeader, i: nat, a: nat, c: Chunk)
    requires Readable(content, p) && PageRange(p, i).Some? && c == ChunkAt(content, p, i)
    ensures Covers(c, a) <==>
            p.virtualAddress <= a < p.virtualAddress + p.memorySize && a / PAGE_SIZE == p.virtualAddress / PAGE_SIZE + i
    ensures Covers(c, a) ==> c.bytes[a - c.address] == SegmentByte(content, p, a - p.virtualAddress)
    ensures Range(c.address, c.address + |c.bytes|) == PageRange(p, i).value.1
  {
    Tiling(p, i);
    ChunkBytes(content, p, i, if a < c.address then 0 else a - c.address);
  }

  /** The chunks that an iterator at header `index` and page `page` has yet to yield. */
  ghost function Remaining(content: Bytes, headers: seq<ProgramHeader>, index: nat, page: nat): seq<Chunk>
    requires AllReadable(content, headers)
    decreases |headers| - index
  {
    if index >= |headers| then [] else SegmentChunks(content, headers[index], page) + Remaining(content, headers, index + 1, 0)
  }

  lemma RemainingSkips(content: Bytes, headers: seq<ProgramHeader>, index: nat, page: nat)
    requires AllReadable(content, headers) && index < |headers| && PageRange(headers[index], page).None?
    ensures Remaining(content, headers, index, page) == Remaining(content, headers, index + 1, 0)
  {
  }

  lemma RemainingPops(content: Bytes, headers: seq<ProgramHeader>, index: nat, page: nat)
    requires AllReadable(content, headers) && index < |headers| && PageRange(headers[index], page).Some?
    ensures var (file, memory) := PageRange(headers[index], page).value;
            && file.start <= file.end && file.start <= |content| && memory.start <= memory.end
            && Remaining(content, headers, index, page) ==
               [ChunkOf(content, (file, memory))] + Remaining(content, headers, index, page + 1)
  {
    assert Readable(content, headers[index]);
  }

  // ---- The reader ----

  datatype Elf64Reader = Elf64Reader(file: File, header: Header, programHeaders: seq<ProgramHeader>)

  ghost function Content(file: File): Bytes
    reads file, file.fs
  {
    if file.node.id in file.fs.files then file.fs.files[file.node.id] else []
  }

  function HeaderSlice(content: Bytes, offset: nat, i: nat): Bytes
    requires offset + PROGRAM_HEADER_SIZE * (i + 1) <= |content|
  {
    content[offset + PROGRAM_HEADER_SIZE * i..offset + PROGRAM_HEADER_SIZE * (i + 1)]
  }

  /** The program headers are parsed from consecutive slices of the file. */
  predicate HeadersAt(content: Bytes, offset: nat, headers: seq<ProgramHeader>)
  {
    && (|headers| > 0 ==> offset + PROGRAM_HEADER_SIZE * |headers| <= |content|)
    && forall i: nat | i < |headers| :: headers[i] == ParseProgramHeader(HeaderSlice(content, offset, i))
  }

  /** `Elf64Reader::new`: it succeeds exactly when both header tables are there and valid. A program
      header table that begins past the end of the file makes the source panic. */
  method NewReader(file: File) returns (r: Result<Elf64Reader>)
    requires file.node.id in file.fs.files ==> file.position <= |Content(file)|
    requires var c := Content(file);
             file.position + HEADER_SIZE <= |c| ==>
               ParseHeader(c[file.position..]).programHeaderCount == 0 || ParseHeader(c[file.position..]).programHeaderOffset <= |c|
    modifies file
    ensures r.Ok? <==>
            var c := Content(file);
            && file.node.id in file.fs.files
            && old(file.position) + HEADER_SIZE <= |c|
            && var h := ParseHeader(c[old(file.position)..]);
               && IsValid(h)
               && (h.programHeaderCount == 0 || h.programHeaderOffset + PROGRAM_HEADER_SIZE * h.programHeaderCount <= |c|)
    ensures r.Ok? ==>
              && r.value.file == file
              && r.value.header == ParseHeader(Content(file)[old(file.position)..])
              && |r.value.programHeaders| == r.value.header.programHeaderCount
              && HeadersAt(Content(file), r.value.header.programHeaderOffset, r.value.programHeaders)
  {
    ghost var c := Content(file);
    var first := file.Read(HEADER_SIZE);
    if first.Err? || |first.value| < HEADER_SIZE {
      return Err;
    }
    var header := ParseHeader(first.value);
    assert header == ParseHeader(c[old(file.position)..]) by { SamePrefix(c, old(file.position)); }
    if !IsValid(header) {
      return Err;
    }
    var seek := file.Seek(header.programHeaderOffset);
    var headers := ReadProgramHeaders(file, header.programHeaderCount);
    if headers.Err? {
      return Err;
    }
    return Ok(Elf64Reader(file, header, headers.value));
  }

  /** The loop that fills the vector of program headers while the cursor moves. */
  method ReadProgramHeaders(file: File, count: nat) returns (r: Result<seq<ProgramHeader>>)
    requires file.node.id in file.fs.files && (count == 0 || file.position <= |Content(file)|)
    modifies file
    ensures r.Ok? <==> count == 0 || old(file.position) + PROGRAM_HEADER_SIZE * count <= |Content(file)|
    ensures r.Ok? ==> |r.value| == count && HeadersAt(Content(file), old(file.position), r.value)
  {
    ghost var c := Content(file);
    ghost var offset := file.position;
    var headers: seq<ProgramHeader> := [];
    for i := 0 to count
      invariant Content(file) == c && |headers| == i
      invariant file.position == offset + PROGRAM_HEADER_SIZE * i
      invariant count > 0 ==> file.position <= |c|
      invariant HeadersAt(c, offset, headers)
    {
      var next := file.Read(PROGRAM_HEADER_SIZE);
      if next.Err? || |next.value| < PROGRAM_HEADER_SIZE {
        return Err;
      }
      assert |next.value| == PROGRAM_HEADER_SIZE && file.position == offset + PROGRAM_HEADER_SIZE * (i + 1) <= |c|;
      assert next.value == HeaderSlice(c, offset, i);
      HeadersPush(c, offset, headers, ParseProgramHeader(next.value));
      headers := headers + [ParseProgramHeader(next.value)];
    }
    return Ok(headers);
  }

  lemma HeadersPush(c: Bytes, offset: nat, headers: seq<ProgramHeader>, p: ProgramHeader)
    requires HeadersAt(c, offset, headers) && offset + PROGRAM_HEADER_SIZE * (|headers| + 1) <= |c|
    requires p == ParseProgramHeader(HeaderSlice(c, offset, |headers|))
    ensures HeadersAt(c, offset, headers + [p])
  {
  }

  lemma SamePrefix(c: Bytes, position: nat)
    requires position + HEADER_SIZE <= |c|
    ensures ParseHeader(ReadAt(c, position, HEADER_SIZE)) == ParseHeader(c[position..])
  {
    var a, b := ReadAt(c, position, HEADER_SIZE), c[position..];
    assert a == b[..64];
    PrefixField(b, 16, 2);
    PrefixField(b, 18, 2);
    PrefixField(b, 20, 4);
    PrefixField(b, 24, 8);
    PrefixField(b, 32, 8);
    PrefixField(b, 54, 2);
    PrefixField(b, 56, 2);
  }

  lemma PrefixField(b: Bytes, offset: nat, width: nat)
    requires offset + width <= HEADER_SIZE <= |b|
    ensures Field(b[..HEADER_SIZE], offset, width) == Field(b, offset, width)
  {
    assert b[..HEADER_SIZE][offset..offset + width] == b[offset..offset + width];
  }

  class LoadablePages {
    const reader: Elf64Reader
    var programHeaderIndex: nat
    var pageIndex: nat

    constructor (reader: Elf64Reader)
      ensures this.reader == reader && programHeaderIndex == 0 && pageIndex == 0
    {
      this.reader, programHeaderIndex, pageIndex := reader, 0, 0;
    }

    ghost predicate Valid()
      reads this, reader.file, reader.file.fs
    {
      && reader.file.node.id in reader.file.fs.files
      && AllReadable(Content(reader.file), reader.programHeaders)
    }

    ghost function Rest(): seq<Chunk>
      reads this, reader.file, reader.file.fs
      requires Valid()
    {
      Remaining(Content(reader.file), reader.programHeaders, programHeaderIndex, pageIndex)
    }

    /** Reads one chunk and pads it with zeroes. */
    method LoadChunk(range: (Range, Range)) returns (r: Option<Chunk>)
      requires Valid()
      requires range.0.start <= range.0.end && range.0.start <= |Content(reader.file)| && range.1.start <= range.1.end
      modifies reader.file
      ensures r == Some(ChunkOf(Content(reader.file), range))
    {
      var seek := reader.file.Seek(range.0.start);
      var bytes := reader.file.Read(range.0.end - range.0.start);
      if bytes.Err? {
        return None;
      }
      return Some(Chunk(range.1.start, Resized(bytes.value, range.1.end - range.1.start)));
    }

    /** `next`: yields the first of the remaining chunks, and ends exactly when there is none. */
    method Next() returns (r: Option<Chunk>)
      requires Valid()
      modifies this, reader.file
      ensures Valid()
      ensures r.None? <==> old(Rest()) == []
      ensures r.Some? ==> old(Rest()) == [r.value] + Rest()
      ensures r.None? ==> Rest() == []
    {
      while true
        invariant Valid() && Rest() == old(Rest())
        decreases |reader.programHeaders| - programHeaderIndex
      {
        if programHeaderIndex >= |reader.programHeaders| {
          return None;
        }
        var p := reader.programHeaders[programHeaderIndex];
        var range := PageRange(p, pageIndex);
        if range.None? {
          RemainingSkips(Content(reader.file), reader.programHeaders, programHeaderIndex, pageIndex);
          programHeaderIndex := programHeaderIndex + 1;
          pageIndex := 0;
          continue;
        }
        RemainingPops(Content(reader.file), reader.programHeaders, programHeaderIndex, pageIndex);
        r := LoadChunk(range.value);
        if r.Some? {
          pageIndex := pageIndex + 1;
        }
        return;
      }
    }
  }
}
