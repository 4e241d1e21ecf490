/** The byte layout of the ELF headers as the System V gABI gives it, and that the parser of kernel/src/task/elf.rs reads
    exactly that layout. */
module ElfLayout {
  import opened PhysicalMemory
  import opened FileContents
  import opened Elf

  /** A little-endian field: its value and its width in bytes. */
  datatype Item = Item(value: nat, width: nat)

  /** The first `n` fields, one after another. */
  function Encode(items: seq<Item>, n: nat): Bytes
    requires n <= |items|
  {
    if n == 0 then [] else Encode(items, n - 1) + ToLittleEndian(items[n - 1].value, items[n - 1].width)
  }

  function Offset(items: seq<Item>, n: nat): nat
    requires n <= |items|
  {
    if n == 0 then 0 else Offset(items, n - 1) + items[n - 1].width
  }

  predicate ItemsFit(items: seq<Item>)
  {
    forall i | 0 <= i < |items| :: items[i].value < Pow256(items[i].width)
  }

  lemma {:induction false} EncodedLength(items: seq<Item>, n: nat)
    requires n <= |items|
    ensures |Encode(items, n)| == Offset(items, n)
  {
    if n > 0 {
      EncodedLength(items, n - 1);
    }
  }

  /** Each field reads back at its offset. */
  lemma {:induction false} FieldReadsBack(items: seq<Item>, n: nat, k: nat)
    requires k < n <= |items| && ItemsFit(items)
    ensures |Encode(items, n)| == Offset(items, n) && Offset(items, k) + items[k].width <= Offset(items, n)
    ensures Field(Encode(items, n), Offset(items, k), items[k].width) == items[k].value
    decreases n
  {
    var before, last := Encode(items, n - 1), ToLittleEndian(items[n - 1].value, items[n - 1].width);
    var offset, width := Offset(items, k), items[k].width;
    EncodedLength(items, n - 1);
    if k == n - 1 {
      assert (before + last)[offset..offset + width] == last;
      LittleEndianRoundTrip(items[k].value, width);
    } else {
      FieldReadsBack(items, n - 1, k);
      assert (before + last)[offset..offset + width] == before[offset..offset + width];
    }
  }

  // ---- Program headers ----

  function ProgramHeaderItems(p: ProgramHeader): seq<Item>
  {
    [Item(p.segmentType, 4), Item(p.flags, 4), Item(p.fileOffset, 8), Item(p.virtualAddress, 8),
     Item(p.physicalAddress, 8), Item(p.fileSize, 8), Item(p.memorySize, 8), Item(p.alignment, 8)]
  }

  lemma ProgramHeaderOffsets(p: ProgramHeader)
    ensures var f := ProgramHeaderItems(p);
            && Offset(f, 0) == 0 && Offset(f, 1) == 4 && Offset(f, 2) == 8 && Offset(f, 3) == 16 && Offset(f, 4) == 24
            && Offset(f, 5) == 32 && Offset(f, 6) == 40 && Offset(f, 7) == 48 && Offset(f, 8) == PROGRAM_HEADER_SIZE
  {
    var f := ProgramHeaderItems(p);
    assert Offset(f, 1) == 4;
    assert Offset(f, 2) == 8;
    assert Offset(f, 3) == 16;
    assert Offset(f, 4) == 24;
    assert Offset(f, 5) == 32;
    assert Offset(f, 6) == 40;
    assert Offset(f, 7) == 48;
  }

  lemma ReadItem(items: seq<Item>, k: nat, offset: nat, width: nat) returns (v: nat)
    requires k < |items| && ItemsFit(items) && offset == Offset(items, k) && width == items[k].width
    ensures offset + width <= |Encode(items, |items|)|
    ensures v == items[k].value && v == Field(Encode(items, |items|), offset, width)
  {
    FieldReadsBack(items, |items|, k);
    v := items[k].value;
  }

  /** Parsing a program header laid out as the standard says gives it back. */
  lemma ProgramHeaderRoundTrip(p: ProgramHeader)
    requires ItemsFit(ProgramHeaderItems(p))
    ensures |Encode(ProgramHeaderItems(p), 8)| == PROGRAM_HEADER_SIZE
    ensures ParseProgramHeader(Encode(ProgramHeaderItems(p), 8)) == p
  {
    var f := ProgramHeaderItems(p);
    ProgramHeaderOffsets(p);
    EncodedLength(f, 8);
    var v0 := ReadItem(f, 0, 0, 4);
    var v1 := ReadItem(f, 1, 4, 4);
    var v2 := ReadItem(f, 2, 8, 8);
    var v3 := ReadItem(f, 3, 16, 8);
    var v4 := ReadItem(f, 4, 24, 8);
    var v5 := ReadItem(f, 5, 32, 8);
    var v6 := ReadItem(f, 6, 40, 8);
    var v7 := ReadItem(f, 7, 48, 8);
  }

  // ---- The file header ----

  lemma {:induction false} LittleEndianIsInjective(s: Bytes)
    ensures ToLittleEndian(FromLittleEndian(s), |s|) == s
  {
    if |s| > 0 {
      LittleEndianIsInjective(s[1..]);
      assert s == [s[0]] + s[1..];
    }
  }

  lemma FieldIs(b: Bytes, offset: nat, width: nat, v: nat)
    requires offset + width <= |b| && v < Pow256(width)
    ensures Field(b, offset, width) == v <==> b[offset..offset + width] == ToLittleEndian(v, width)
  {
    LittleEndianIsInjective(b[offset..offset + width]);
    LittleEndianRoundTrip(v, width);
  }

  lemma ShortWords()
    ensures ToLittleEndian(2, 2) == [2, 0] && ToLittleEndian(0xB7, 2) == [0xB7, 0] && ToLittleEndian(56, 2) == [56, 0]
    ensures ToLittleEndian(1, 4) == [1, 0, 0, 0] && Pow256(2) == 0x1_0000 && Pow256(4) == 0x1_0000_0000
  {
    assert ToLittleEndian(0, 1) == [0] && ToLittleEndian(0, 2) == [0, 0] && ToLittleEndian(0, 3) == [0, 0, 0];
    assert Pow256(3) == 0x100_0000;
  }

  /** The reader accepts exactly the headers with these bytes: the magic number, 64-bit little-endian
      System V, an executable for AArch64, original version, and program headers of 56 bytes. */
  lemma AcceptedHeaders(b: Bytes)
    requires |b| >= HEADER_SIZE
    ensures IsValid(ParseHeader(b)) <==>
            && b[..8] == [0x7F, 0x45, 0x4C, 0x46, 2, 1, 1, 0]
            && b[16..18] == [2, 0] && b[18..20] == [0xB7, 0] && b[20..24] == [1, 0, 0, 0]
            && b[54..56] == [56, 0]
  {
    ShortWords();
    FieldIs(b, 16, 2, 2);
    FieldIs(b, 18, 2, 0xB7);
    FieldIs(b, 20, 4, 1);
    FieldIs(b, 54, 2, 56);
    assert b[..8] == b[..4] + [b[4], b[5], b[6], b[7]];
  }

  /** The other fields sit where the standard puts them. */
  lemma HeaderFields(b: Bytes, entry: nat, offset: nat, count: nat)
    requires |b| >= HEADER_SIZE && entry < Pow256(8) && offset < Pow256(8) && count < Pow256(2)
    requires b[24..32] == ToLittleEndian(entry, 8) && b[32..40] == ToLittleEndian(offset, 8) && b[56..58] == ToLittleEndian(count, 2)
    ensures ParseHeader(b).entryPoint == entry
    ensures ParseHeader(b).programHeaderOffset == offset && ParseHeader(b).programHeaderCount == count
  {
    FieldIs(b, 24, 8, entry);
    FieldIs(b, 32, 8, offset);
    FieldIs(b, 56, 2, count);
  }
}
