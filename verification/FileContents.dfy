/** The bytes of a file: reads and writes at a position (kernel/src/fs/tmpfs.rs), and any run of
    cursors over one file (kernel/src/fs/file.rs). */
module FileContents {
  import opened PhysicalMemory

  type Bytes = seq<Byte>

  function Zeros(n: nat): Bytes { seq(n, _ => 0) }

  /** `read`: a range that begins past the end panics. */
  function ReadAt(content: Bytes, position: nat, count: nat): Bytes
    requires position <= |content|
  {
    content[position..if position + count > |content| then |content| else position + count]
  }

  /** `write`: grows the file with zeroes up to the end of the range, then replaces the range. */
  function WriteAt(content: Bytes, position: nat, buf: Bytes): Bytes
  {
    var end := position + |buf|;
    var grown := if end > |content| then content + Zeros(end - |content|) else content;
    grown[..position] + buf + grown[end..]
  }

  /** A read returns as many bytes as asked for and there are, each from its place. */
  lemma ReadMeaning(content: Bytes, position: nat, count: nat, i: nat)
    requires position <= |content|
    ensures var buf := ReadAt(content, position, count);
            && |buf| == (if count < |content| - position then count else |content| - position)
            && (i < |buf| ==> buf[i] == content[position + i])
  {
  }

  /** A write replaces exactly its span and fills any gap before it with zeroes. */
  lemma WriteMeaning(content: Bytes, position: nat, buf: Bytes, i: nat)
    ensures var after := WriteAt(content, position, buf);
            && |after| == (if position + |buf| > |content| then position + |buf| else |content|)
            && (i < |after| ==>
                  after[i] == if position <= i < position + |buf| then buf[i - position] else if i < |content| then content[i] else 0)
  {
  }

  /** Write, seek back, read: the bytes come back. */
  lemma WriteThenRead(content: Bytes, position: nat, buf: Bytes)
    ensures position <= |WriteAt(content, position, buf)|
    ensures ReadAt(WriteAt(content, position, buf), position, |buf|) == buf
  {
  }

  // ---- Cursors ----

  datatype Op = Seek(handle: nat, position: nat) | Read(handle: nat, count: nat) | Write(handle: nat, buf: Bytes)

  /** One file and the position of every open handle; a handle that was never moved stands at 0. */
  datatype Open = Open(content: Bytes, positions: map<nat, nat>)

  /** One handle, numbered 0. */
  function OneHandle(content: Bytes, position: nat): Open
  {
    Open(content, map[0 := position])
  }

  function Position(s: Open, handle: nat): nat
  {
    if handle in s.positions then s.positions[handle] else 0
  }

  /** Reads at or before the end: beyond it the source panics. */
  predicate CanStep(s: Open, op: Op)
  {
    op.Read? ==> Position(s, op.handle) <= |s.content|
  }

  function Step(s: Open, op: Op): (Open, Bytes)
    requires CanStep(s, op)
  {
    match op
    case Seek(h, position) => (s.(positions := s.positions[h := position]), [])
    case Read(h, count) =>
      var buf := ReadAt(s.content, Position(s, h), count);
      (s.(positions := s.positions[h := Position(s, h) + |buf|]), buf)
    case Write(h, buf) =>
      (Open(WriteAt(s.content, Position(s, h), buf), s.positions[h := Position(s, h) + |buf|]), [])
  }

  predicate CanRun(content: Bytes, ops: seq<Op>)
    decreases |ops|, 0
  {
    |ops| == 0 || (CanRun(content, ops[..|ops| - 1]) && CanStep(Run(content, ops[..|ops| - 1]), ops[|ops| - 1]))
  }

  /** The file after a run that starts with the given contents and fresh handles. */
  function Run(content: Bytes, ops: seq<Op>): Open
    requires CanRun(content, ops)
    decreases |ops|, 1
  {
    if |ops| == 0 then Open(content, map[]) else Step(Run(content, ops[..|ops| - 1]), ops[|ops| - 1]).0
  }

  // ---- The reference: look each byte up in the history of the writes ----

  /** The position of a handle, read off its own seeks, its own writes and the lengths of what its own reads
      returned; what other handles do matters only through those lengths. */
  function Cursor(content: Bytes, ops: seq<Op>, handle: nat): nat
    requires CanRun(content, ops)
  {
    if |ops| == 0 then 0
    else
      var before := ops[..|ops| - 1];
      var op := ops[|ops| - 1];
      if op.handle != handle then Cursor(content, before, handle)
      else match op
        case Seek(_, position) => position
        case Read(_, _) => Cursor(content, before, handle) + |Step(Run(content, before), op).1|
        case Write(_, buf) => Cursor(content, before, handle) + |buf|
  }

  /** The byte at `i` by history: the latest write that covers it, else the original byte, else zero. */
  function HistoryByte(content: Bytes, ops: seq<Op>, i: nat): Byte
    requires CanRun(content, ops)
  {
    if |ops| == 0 then if i < |content| then content[i] else 0
    else
      var before := ops[..|ops| - 1];
      var op := ops[|ops| - 1];
      var at := Cursor(content, before, op.handle);
      if op.Write? && at <= i < at + |op.buf| then op.buf[i - at] else HistoryByte(content, before, i)
  }

  /** The length by history: the farthest end that any write reached. */
  function HistoryLength(content: Bytes, ops: seq<Op>): nat
    requires CanRun(content, ops)
  {
    if |ops| == 0 then |content|
    else
      var before := ops[..|ops| - 1];
      var op := ops[|ops| - 1];
      var length := HistoryLength(content, before);
      if op.Write? && Cursor(content, before, op.handle) + |op.buf| > length
      then Cursor(content, before, op.handle) + |op.buf|
      else length
  }

  lemma {:induction false} PositionIsCursor(content: Bytes, ops: seq<Op>, handle: nat)
    requires CanRun(content, ops)
    ensures Position(Run(content, ops), handle) == Cursor(content, ops, handle)
  {
    if |ops| > 0 {
      PositionIsCursor(content, ops[..|ops| - 1], handle);
    }
  }

  /** After any run of any number of handles the file is exactly what its write history says. */
  lemma {:induction false} FileIsItsHistory(content: Bytes, ops: seq<Op>, i: nat)
    requires CanRun(content, ops)
    ensures |Run(content, ops).content| == HistoryLength(content, ops)
    ensures i < HistoryLength(content, ops) ==> Run(content, ops).content[i] == HistoryByte(content, ops, i)
    ensures i >= HistoryLength(content, ops) ==> HistoryByte(content, ops, i) == 0
  {
    if |ops| > 0 {
      var before := ops[..|ops| - 1];
      var op := ops[|ops| - 1];
      FileIsItsHistory(content, before, i);
      PositionIsCursor(content, before, op.handle);
      if op.Write? {
        WriteMeaning(Run(content, before).content, Position(Run(content, before), op.handle), op.buf, i);
      }
    }
  }

  /** A read in any run returns what the write history says from the handle's cursor on, as much as was asked for and is
      there. */
  lemma ReadReturnsHistory(content: Bytes, ops: seq<Op>, handle: nat, count: nat, i: nat)
    requires CanRun(content, ops) && Cursor(content, ops, handle) <= HistoryLength(content, ops)
    ensures CanStep(Run(content, ops), Read(handle, count))
    ensures var buf := Step(Run(content, ops), Read(handle, count)).1;
            var left := HistoryLength(content, ops) - Cursor(content, ops, handle);
            && |buf| == (if count < left then count else left)
            && (i < |buf| ==> buf[i] == HistoryByte(content, ops, Cursor(content, ops, handle) + i))
  {
    PositionIsCursor(content, ops, handle);
    FileIsItsHistory(content, ops, Cursor(content, ops, handle) + i);
    ReadMeaning(Run(content, ops).content, Cursor(content, ops, handle), count, i);
  }

  // ---- Successive reads ----

  function Sum(counts: seq<nat>): nat
  {
    if |counts| == 0 then 0 else counts[0] + Sum(counts[1..])
  }

  /** The concatenated results of successive reads by one handle, and where they leave it. */
  function Reads(content: Bytes, position: nat, counts: seq<nat>): (Bytes, nat)
    requires position <= |content|
    decreases |counts|
  {
    if |counts| == 0 then ([], position)
    else
      var buf := ReadAt(content, position, counts[0]);
      var (rest, end) := Reads(content, position + |buf|, counts[1..]);
      (buf + rest, end)
  }

  /** However a range is cut into reads, their concatenation is one read of the whole. */
  lemma {:induction false} ReadsConcatenate(content: Bytes, position: nat, counts: seq<nat>)
    requires position <= |content|
    ensures Reads(content, position, counts).0 == ReadAt(content, position, Sum(counts))
    ensures Reads(content, position, counts).1 == position + |ReadAt(content, position, Sum(counts))|
    decreases |counts|
  {
    if |counts| > 0 {
      ReadsConcatenate(content, position + |ReadAt(content, position, counts[0])|, counts[1..]);
    }
  }
}
