/**
 The write-ahead log format (rutil/log_format.h, include/rocksutil/log_writer.h): physical records,
 the fragmentation of a logical record over blocks, and the byte image of a whole log.
 */
module LogFormat {
  import opened Coding
  import Crc = Crc32c

  const BLOCK_SIZE: nat := 32768
  const HEADER_SIZE: nat := 7
  const RECYCLABLE_HEADER_SIZE: nat := 11

  const ZERO_TYPE: nat := 0
  const FULL_TYPE: nat := 1
  const FIRST_TYPE: nat := 2
  const MIDDLE_TYPE: nat := 3
  const LAST_TYPE: nat := 4
  const RECYCLABLE_FULL_TYPE: nat := 5
  const RECYCLABLE_FIRST_TYPE: nat := 6
  const RECYCLABLE_MIDDLE_TYPE: nat := 7
  const RECYCLABLE_LAST_TYPE: nat := 8

  // The writer's header format: legacy, or recyclable with a 64-bit log number.
  datatype Format = Format(recycle: bool, logNumber: nat) {
    function HeaderSize(): (r: nat)
      ensures r == HEADER_SIZE || r == RECYCLABLE_HEADER_SIZE
    {
      if recycle then RECYCLABLE_HEADER_SIZE else HEADER_SIZE
    }

    // Only the low 32 bits of the log number reach the file.
    function NumberBytes(): (r: Bytes)
      ensures |r| == HeaderSize() - HEADER_SIZE
    {
      if recycle then EncodeFixed32(logNumber % 0x1_0000_0000) else []
    }
  }

  function FragmentType(recycle: bool, begin: bool, end: bool): (t: nat)
    ensures 1 <= t <= 8
  {
    var legacy := if begin && end then FULL_TYPE
                  else if begin then FIRST_TYPE
                  else if end then LAST_TYPE
                  else MIDDLE_TYPE;
    if recycle then legacy + 4 else legacy
  }

  // One physical record: checksum, length, type, log number, payload. The checksum covers
  // everything from the type byte on.
  function Physical(f: Format, t: Byte, payload: Bytes): (r: Bytes)
    requires |payload| <= 0xffff
    ensures |r| == f.HeaderSize() + |payload|
  {
    EncodeFixed32(Crc.Mask(Crc.Value([t] + f.NumberBytes() + payload)))
    + EncodeLength(|payload|) + [t] + f.NumberBytes() + payload
  }

  function BlockEnd(p: nat): nat {
    (p / BLOCK_SIZE + 1) * BLOCK_SIZE
  }

  // Bytes of zero padding before a record that is appended at file position p.
  function TrailerSize(f: Format, p: nat): (k: nat)
    ensures k < f.HeaderSize()
  {
    if p % BLOCK_SIZE == 0 || BLOCK_SIZE - p % BLOCK_SIZE >= f.HeaderSize() then 0
    else BLOCK_SIZE - p % BLOCK_SIZE
  }

  predicate HeaderFits(f: Format, p: nat) {
    p % BLOCK_SIZE + f.HeaderSize() <= BLOCK_SIZE
  }

  // Payload bytes that fit behind a header at position p.
  function Available(f: Format, p: nat): (r: nat)
    requires HeaderFits(f, p)
    ensures r <= 0xffff
    ensures p + f.HeaderSize() + r == BlockEnd(p)
  {
    BLOCK_SIZE - p % BLOCK_SIZE - f.HeaderSize()
  }

  // The fragments of the rest of a record, from a position where a header fits. Every fragment
  // but the last one fills its block.
  function Fragments(f: Format, p: nat, left: Bytes, begin: bool): (r: Bytes)
    requires HeaderFits(f, p)
    ensures |r| >= f.HeaderSize()
    decreases |left|, p % BLOCK_SIZE
  {
    var n := Min(|left|, Available(f, p));
    var t := FragmentType(f.recycle, begin, n == |left|);
    Physical(f, t, left[..n])
    + if n == |left| then [] else Fragments(f, BlockEnd(p), left[n..], false)
  }

  function RecordBytes(f: Format, p: nat, record: Bytes): (r: Bytes)
    ensures |r| >= f.HeaderSize()
  {
    var k := TrailerSize(f, p);
    ZeroBytes(k) + Fragments(f, p + k, record, true)
  }

  // The log bytes of a list of records, appended from file position p on.
  function LogBytes(f: Format, p: nat, records: seq<Bytes>): Bytes
    decreases |records|
  {
    if records == [] then []
    else
      var b := RecordBytes(f, p, records[0]);
      b + LogBytes(f, p + |b|, records[1..])
  }

  lemma {:induction false} LogBytesAppend(f: Format, p: nat, a: seq<Bytes>, b: seq<Bytes>)
    ensures LogBytes(f, p, a + b) == LogBytes(f, p, a) + LogBytes(f, p + |LogBytes(f, p, a)|, b)
    decreases |a|
  {
    hide RecordBytes;
    if a == [] {
      assert a + b == b;
    } else {
      assert (a + b)[1..] == a[1..] + b;
      LogBytesAppend(f, p + |RecordBytes(f, p, a[0])|, a[1..], b);
    }
  }

  // Only the position within the block matters.
  lemma {:induction false} FragmentsModBlock(f: Format, p: nat, q: nat, left: Bytes, begin: bool)
    requires HeaderFits(f, p) && p % BLOCK_SIZE == q % BLOCK_SIZE
    ensures Fragments(f, p, left, begin) == Fragments(f, q, left, begin)
    decreases |left|, p % BLOCK_SIZE
  {
    hide Physical;
    var n := Min(|left|, Available(f, p));
    if n < |left| {
      FragmentsModBlock(f, BlockEnd(p), BlockEnd(q), left[n..], false);
    }
  }

  lemma RecordBytesModBlock(f: Format, p: nat, q: nat, record: Bytes)
    requires p % BLOCK_SIZE == q % BLOCK_SIZE
    ensures RecordBytes(f, p, record) == RecordBytes(f, q, record)
  {
    hide Fragments;
    var k := TrailerSize(f, p);
    FragmentsModBlock(f, p + k, q + k, record, true);
  }
}
