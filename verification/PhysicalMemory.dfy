/** Physical memory: 4 KiB pages of bytes, and the view of a page as 512 little-endian `u64` rows. */
module PhysicalMemory {
  import opened Bits

  const PAGE_SIZE: nat := 4096
  const ROW_COUNT: nat := 512

  /** A half-open range of addresses or offsets. */
  datatype Range = Range(start: nat, end: nat)

  type Byte = b: nat | b < 256

  type Page = p: seq<Byte> | |p| == PAGE_SIZE witness seq(PAGE_SIZE, _ => 0)

  /** Keyed by the physical address of each page. */
  type Memory = map<nat, Page>

  function ZeroPage(): Page { seq(PAGE_SIZE, _ => 0) }

  function FromLittleEndian(s: seq<Byte>): nat
  {
    if |s| == 0 then 0 else s[0] + 256 * FromLittleEndian(s[1..])
  }

  function ToLittleEndian(v: nat, n: nat): (s: seq<Byte>)
    ensures |s| == n
    decreases n
  {
    if n == 0 then [] else [v % 256] + ToLittleEndian(v / 256, n - 1)
  }

  function Row(page: Page, i: nat): nat
    requires i < ROW_COUNT
  {
    FromLittleEndian(page[8 * i..8 * i + 8])
  }

  function WithRow(page: Page, i: nat, v: nat): Page
    requires i < ROW_COUNT
  {
    page[..8 * i] + ToLittleEndian(v, 8) + page[8 * i + 8..]
  }

  function Pow256(n: nat): (p: nat)
    ensures p >= 1
  {
    if n == 0 then 1 else 256 * Pow256(n - 1)
  }

  /** Storing a word and loading it back is the identity on words that fit. */
  lemma {:induction false} LittleEndianRoundTrip(v: nat, n: nat)
    requires v < Pow256(n)
    ensures FromLittleEndian(ToLittleEndian(v, n)) == v
    decreases n
  {
    if n > 0 {
      LittleEndianRoundTrip(v / 256, n - 1);
      assert ToLittleEndian(v, n)[1..] == ToLittleEndian(v / 256, n - 1);
    }
  }

  lemma WordFits(v: nat)
    requires v < U64
    ensures v < Pow256(8)
  {
    assert Pow256(2) == 0x1_0000;
    assert Pow256(4) == 0x1_0000_0000;
    assert Pow256(6) == 0x1_0000_0000_0000;
  }

  /** A row write changes exactly that row. */
  lemma RowAfterWrite(page: Page, i: nat, v: nat)
    requires i < ROW_COUNT && v < U64
    ensures Row(WithRow(page, i, v), i) == v
    ensures forall j: nat | j < ROW_COUNT && j != i :: Row(WithRow(page, i, v), j) == Row(page, j)
  {
    var after := WithRow(page, i, v);
    assert after[8 * i..8 * i + 8] == ToLittleEndian(v, 8);
    WordFits(v);
    LittleEndianRoundTrip(v, 8);
    forall j: nat | j < ROW_COUNT && j != i
      ensures Row(after, j) == Row(page, j)
    {
      assert after[8 * j..8 * j + 8] == page[8 * j..8 * j + 8];
    }
  }

  lemma {:induction false} ZerosDecodeToZero(s: seq<Byte>)
    requires forall k | 0 <= k < |s| :: s[k] == 0
    ensures FromLittleEndian(s) == 0
  {
    if |s| > 0 {
      ZerosDecodeToZero(s[1..]);
    }
  }

  lemma ZeroPageRows()
    ensures forall i: nat | i < ROW_COUNT :: Row(ZeroPage(), i) == 0
  {
    forall i: nat | i < ROW_COUNT
      ensures Row(ZeroPage(), i) == 0
    {
      ZerosDecodeToZero(ZeroPage()[8 * i..8 * i + 8]);
    }
  }

  /** The RAM behind every physical address. */
  class Ram {
    var pages: Memory

    constructor (pages: Memory)
      ensures this.pages == pages
    {
      this.pages := pages;
    }

    method WriteRow(page: nat, i: nat, v: nat)
      requires page in pages && i < ROW_COUNT
      modifies this
      ensures pages == old(pages)[page := WithRow(old(pages)[page], i, v)]
    {
      pages := pages[page := WithRow(pages[page], i, v)];
    }
  }
}
