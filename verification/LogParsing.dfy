/**
 How the reader parses bytes that the writer wrote (rutil/log_reader.cc:309-431): one lemma per
 shape of the visible rest of the file - a whole physical record, a cut one, a zero trailer.
 */
module LogParsing {
  import opened Coding
  import opened LogFormat
  import opened LogReader
  import opened LogSoundness
  import Crc = Crc32c

  // The reader's fields agree with its file: the buffer is the not yet parsed part of one block,
  // and a reader that has not met the end of the file sits on a block boundary.
  predicate Synced(s: State) {
    && !s.readError && s.file.faults == map[]
    && s.endOfBuffer == s.file.pos && Loaded(s)
    && (if s.eof then s.eofOffset == s.file.pos % BLOCK_SIZE
        else s.eofOffset == 0 && s.file.pos % BLOCK_SIZE == 0)
    && (s.buffer != [] ==> if s.eof then s.file.pos < BlockEnd(At(s)) else s.file.pos == BlockEnd(At(s)))
  }

  // What the reader can see before it is told to look again.
  function Visible(s: State): Bytes {
    if s.eof then s.file.data[..s.file.pos] else s.file.data
  }

  predicate Matches(c: Config, f: Format) {
    f.recycle ==> c.logNumber == f.logNumber % 0x1_0000_0000
  }

  // Parsing moves on, but leaves the file, the view of it and the reports alone.
  predicate Moved(s: State, s': State, p: nat) {
    && Synced(s') && At(s') == p
    && Visible(s') == Visible(s) && s'.file.data == s.file.data
    && s'.reports == s.reports && s'.lastRecordOffset == s.lastRecordOffset
  }

  // The next header the reader looks at is the one at q: it is at the buffer's start, or the
  // buffer holds only the short end of a block and q is the next block.
  predicate NextHeader(s: State, q: nat)
    requires Synced(s)
  {
    q == At(s) || (q == s.file.pos && !s.eof && |s.buffer| < HEADER_SIZE)
  }

  lemma RefillLemma(c: Config, s: State)
    requires Synced(s) && !s.eof
    ensures var m := ReadMore(c, s);
            && m.ok && Moved(s, m.s, s.file.pos)
            && m.s.buffer == s.file.data[s.file.pos..s.file.pos + Min(BLOCK_SIZE, |s.file.data| - s.file.pos)]
            && (m.s.eof <==> |m.s.buffer| < BLOCK_SIZE)
  {
    var m := ReadMore(c, s);
    assert m.s.eof ==> m.s.file.pos == |s.file.data|;
    assert m.s.eof ==> s.file.data[..|s.file.data|] == s.file.data;
  }

  // ---------- a whole physical record ----------

  // The record, decoded field by field.
  lemma PhysicalFields(f: Format, t: Byte, payload: Bytes, b: Bytes)
    requires |payload| <= 0xffff
    requires |b| >= |Physical(f, t, payload)| && b[..|Physical(f, t, payload)|] == Physical(f, t, payload)
    ensures var h := f.HeaderSize();
            && b[6] == t && DecodeLength(b[4], b[5]) == |payload|
            && b[h..h + |payload|] == payload
            && (f.recycle ==> DecodeFixed32(b[7..]) == f.logNumber % 0x1_0000_0000)
            && Crc.Unmask(DecodeFixed32(b)) == Crc.Value(b[6..h + |payload|])
  {
    hide Crc.Value, Crc.Mask, Crc.Unmask;
    var h, n := f.HeaderSize(), |payload|;
    var crc := Crc.Value([t] + f.NumberBytes() + payload);
    var x := b[..h + n];
    assert x == EncodeFixed32(Crc.Mask(crc)) + EncodeLength(n) + [t] + f.NumberBytes() + payload;
    assert x[..4] == EncodeFixed32(Crc.Mask(crc));
    assert x[4..6] == EncodeLength(n);
    assert b[4] == x[4..6][0] && b[5] == x[4..6][1];
    assert x[6..] == [t] + f.NumberBytes() + payload;
    assert b[6..h + n] == x[6..];
    DecodePrefix(b, EncodeFixed32(Crc.Mask(crc)));
    Fixed32RoundTrip(Crc.Mask(crc));
    Crc.MaskRoundTrip(crc);
    if f.recycle {
      assert x[7..11] == f.NumberBytes();
      assert b[7..][..4] == x[7..11];
      DecodePrefix(b[7..], f.NumberBytes());
      Fixed32RoundTrip(f.logNumber % 0x1_0000_0000);
    }
  }

  ghost predicate ReadsWhole(c: Config, s: State, q: nat, t: nat, payload: Bytes, end: nat, r: PhysicalResult) {
    && Moved(s, r.s, end) && r.drop == 0
    && (if q < c.initialOffset then r.code == BAD_RECORD else r.code == t && r.fragment == payload)
  }

  lemma ParseWhole(c: Config, f: Format, s: State, t: Byte, payload: Bytes)
    requires Synced(s) && Matches(c, f) && |payload| <= 0xffff
    requires 1 <= t <= 8 && IsRecyclableType(t) == f.recycle
    requires Physical(f, t, payload) <= s.buffer
    ensures ReadsWhole(c, s, At(s), t, payload, At(s) + |Physical(f, t, payload)|, ReadPhysical(c, s))
  {
    hide Physical, Crc.Value, Crc.Unmask, DecodeFixed32, DecodeLength, Sub64;
    var size := |Physical(f, t, payload)|;
    PhysicalFields(f, t, payload, s.buffer);
    assert Position(s) == At(s) by { PositionIsAt(s); }
    var s1 := if f.recycle && Position(s) == 0 then s.(recycled := true) else s;
    var s2 := s1.(buffer := s.buffer[size..]);
    DropKeepsSync(s, s2, size);
  }

  lemma PositionIsAt(s: State)
    requires Synced(s)
    ensures Position(s) == At(s)
  {
  }

  lemma DropKeepsSync(s: State, s': State, n: nat)
    requires Synced(s) && n <= |s.buffer|
    requires s' == s.(recycled := s'.recycled, buffer := s.buffer[n..])
    ensures Moved(s, s', At(s) + n)
  {
    DropIsLoaded(s, s', n);
  }

  lemma MovedTrans(a: State, b: State, c: State, p: nat, q: nat)
    requires Moved(a, b, p) && Moved(b, c, q)
    ensures Moved(a, c, q)
  {
  }

  lemma RefillFirst(c: Config, s: State)
    requires |s.buffer| < HEADER_SIZE && ReadMore(c, s).ok
    ensures ReadPhysical(c, s) == ReadPhysical(c, ReadMore(c, s).s)
  {
    hide ReadMore;
  }

  // A physical record that is wholly visible at the next header is read, and only it.
  lemma PhysicalWhole(c: Config, f: Format, s: State, q: nat, t: Byte, payload: Bytes)
    requires Synced(s) && Matches(c, f) && |payload| <= 0xffff
    requires 1 <= t <= 8 && IsRecyclableType(t) == f.recycle
    requires NextHeader(s, q) && q % BLOCK_SIZE + |Physical(f, t, payload)| <= BLOCK_SIZE
    requires q + |Physical(f, t, payload)| <= |Visible(s)|
    requires Visible(s)[q..q + |Physical(f, t, payload)|] == Physical(f, t, payload)
    ensures ReadsWhole(c, s, q, t, payload, q + |Physical(f, t, payload)|, ReadPhysical(c, s))
  {
    hide Physical, Moved, ReadPhysical, ReadMore;
    var size := |Physical(f, t, payload)|;
    if q == At(s) && s.buffer != [] {
      assert size <= |s.buffer|;
      assert s.buffer[..size] == Visible(s)[q..q + size];
      ParseWhole(c, f, s, t, payload);
    } else {
      RefillLemma(c, s);
      var m := ReadMore(c, s);
      assert m.s.buffer[..size] == Visible(s)[q..q + size];
      ParseWhole(c, f, m.s, t, payload);
      RefillFirst(c, s);
      MovedTrans(s, m.s, ReadPhysical(c, s).s, q, q + size);
    }
  }

  // ---------- a cut physical record ----------

  ghost predicate ReadsCut(s: State, q: nat, r: PhysicalResult) {
    && Moved(s, r.s, |Visible(s)|) && r.s.eof && r.s.buffer == []
    && q <= |Visible(s)|
    && r.drop == |Visible(s)| - q
    && r.code == if q == |Visible(s)| then EOF else BAD_HEADER
  }

  lemma ParseCut(c: Config, f: Format, s: State, t: Byte, payload: Bytes)
    requires Synced(s) && s.eof && Matches(c, f) && |payload| <= 0xffff
    requires 1 <= t <= 8 && IsRecyclableType(t) == f.recycle
    requires s.buffer < Physical(f, t, payload)
    ensures ReadsCut(s, At(s), ReadPhysical(c, s))
  {
    hide Physical, Crc.Value, Crc.Unmask, DecodeFixed32, DecodeLength, Sub64, Moved;
    var b, x := s.buffer, Physical(f, t, payload);
    var s1 := if f.recycle && Position(s) == 0 then s.(recycled := true) else s;
    DropKeepsSync(s, s.(buffer := []), |b|);
    DropKeepsSync(s, s1.(buffer := []), |b|);
    PhysicalFields(f, t, payload, x);
    if |b| >= HEADER_SIZE {
      assert b[4] == x[4] && b[5] == x[5] && b[6] == x[6];
      if |b| >= RECYCLABLE_HEADER_SIZE && f.recycle {
        assert b[7..][..4] == x[7..][..4];
        DecodePrefix(b[7..], x[7..]);
      }
    }
  }

  lemma PhysicalCut(c: Config, f: Format, s: State, q: nat, t: Byte, payload: Bytes)
    requires Synced(s) && Matches(c, f) && |payload| <= 0xffff
    requires 1 <= t <= 8 && IsRecyclableType(t) == f.recycle
    requires NextHeader(s, q) && q % BLOCK_SIZE + |Physical(f, t, payload)| <= BLOCK_SIZE
    requires q <= |Visible(s)| && Visible(s)[q..] < Physical(f, t, payload)
    ensures ReadsCut(s, q, ReadPhysical(c, s))
  {
    hide Physical;
    if s.eof {
      assert Visible(s)[q..] == s.buffer;
      ParseCut(c, f, s, t, payload);
    } else {
      assert q == At(s) ==> s.buffer == [];
      RefillLemma(c, s);
      var m := ReadMore(c, s);
      assert m.s.buffer == Visible(s)[q..];
      ParseCut(c, f, m.s, t, payload);
      RefillFirst(c, s);
      MovedTrans(s, m.s, ReadPhysical(c, s).s, q, |Visible(s)|);
    }
  }

  // ---------- trailers ----------

  // Seven or more zero bytes at the end of a block, or of the file, parse as one skipped record.
  lemma LongZeros(c: Config, s: State)
    requires Synced(s) && |s.buffer| >= HEADER_SIZE
    requires forall i :: 0 <= i < |s.buffer| ==> s.buffer[i] == 0
    ensures var r := ReadPhysical(c, s);
            r.code == BAD_RECORD && Moved(s, r.s, s.file.pos) && r.s.buffer == [] && r.s.eof == s.eof
  {
    hide Crc.Value, Crc.Unmask, Synced, Moved, Sub64, DecodeFixed32, ReadMore;
    var b := s.buffer;
    assert b[4] == 0 && b[5] == 0 && b[6] == 0;
    assert b[|b|..] == [];
    DropKeepsSync(s, s.(buffer := []), |b|);
    BufferEnds(s);
  }

  lemma BufferEnds(s: State)
    requires Synced(s)
    ensures Loaded(s) && At(s) + |s.buffer| == s.file.pos
  {
  }

  // Fewer at the end of the file are a truncated header.
  lemma ShortEnd(c: Config, s: State)
    requires Synced(s) && s.eof && |s.buffer| < HEADER_SIZE
    ensures ReadsCut(s, At(s), ReadPhysical(c, s))
  {
    DropKeepsSync(s, s.(buffer := []), |s.buffer|);
  }
}
