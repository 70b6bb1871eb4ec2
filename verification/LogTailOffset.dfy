/**
 Following the tail of a log from an initial offset (rutil/log_reader.cc:44-65, 76-80, 235-296, 419-429).
 The reader skips to its initial block at every call until it has returned a record. Each skip moves
 on from where the file stands, and resets the offset at which the reader takes its buffer to end.
 */
module LogTailOffset {
  import opened Coding
  import opened LogFormat
  import opened LogReader
  import opened LogSoundness
  import opened LogParsing
  import opened LogRecords
  import opened LogTermination
  import opened LogRecovery
  import opened LogTail
  import opened LogOffset
  import LogSessions
  import Crc = Crc32c

  // Reading adds as much to the file position as to the offset that the reader goes by.
  predicate InStep(s: State, s': State) {
    s'.file.data == s.file.data && s'.file.pos - s'.endOfBuffer == s.file.pos - s.endOfBuffer
  }

  lemma {:induction false} PhysicalInStep(c: Config, s: State)
    ensures InStep(s, ReadPhysical(c, s).s)
    decreases Unread(s)
  {
    hide ReadPayload, ReportDrop, DecodeFixed32, DecodeLength, Position;
    if |s.buffer| < HEADER_SIZE {
      if ReadMore(c, s).ok {
        PhysicalInStep(c, ReadMore(c, s).s);
      }
    } else {
      var t, length := TypeOf(s.buffer[6]), DecodeLength(s.buffer[4], s.buffer[5]);
      var s1 := if IsRecyclableType(t) && Position(s) == 0 then s.(recycled := true) else s;
      var headerSize := if IsRecyclableType(t) then RECYCLABLE_HEADER_SIZE else HEADER_SIZE;
      if |s.buffer| < headerSize {
        if ReadMore(c, s1).ok {
          PhysicalInStep(c, ReadMore(c, s1).s);
        }
      } else {
        PayloadInStep(c, s1, t, headerSize, length);
      }
    }
  }

  lemma PayloadInStep(c: Config, s: State, t: nat, headerSize: nat, length: nat)
    requires HEADER_SIZE <= headerSize <= |s.buffer|
    ensures InStep(s, ReadPayload(c, s, t, headerSize, length).s)
  {
    hide Crc.Value, Crc.Unmask, DecodeFixed32, Position;
  }

  lemma {:induction false} LoopInStep(c: Config, mode: Mode, s: State, l: Local)
    ensures InStep(s, Loop(c, mode, s, l).s)
    decreases Unread(s), |s.buffer|
  {
    hide ReadPhysical, Dispatch;
    PhysicalInStep(c, s);
    match Step(c, mode, s, l)
    case Return(_, _) =>
    case Continue(s', l') =>
      if Progress(s, s') {
        LoopInStep(c, mode, s', l');
      }
  }

  lemma ReadData(c: Config, mode: Mode, s: State)
    ensures ReadRecord(c, mode, s).s.file.data == s.file.data
  {
    hide Loop, BlockStart, ReportDrop;
    LoopInStep(c, mode, s, IDLE);
    LoopInStep(c, mode, SkipToInitialBlock(c, s).s, IDLE);
  }

  // The first records of a list have their headers where the list has them.
  lemma BeforePrefix(f: Format, records: seq<Bytes>, offset: nat, j: nat)
    requires j <= |records| && Before(f, 0, records[..j], offset) < j
    ensures Before(f, 0, records[..j], offset) == Before(f, 0, records, offset)
  {
    hide Before;
    var k := Before(f, 0, records[..j], offset);
    BeforeIsExact(f, 0, records[..j], offset, k);
    BeforeIsExact(f, 0, records, offset, k);
    assert records[..j][..k] == records[..k];
    if k > 0 {
      BeforeIsExact(f, 0, records[..j], offset, k - 1);
      BeforeIsExact(f, 0, records, offset, k - 1);
      assert records[..j][..k - 1] == records[..k - 1];
    }
  }

  // A reader with an initial offset follows the log after its first call if and only if that call has
  // returned a record, and it has if some record in the file has its header at or after the offset.
  lemma FollowsFromOffset(c: Config, mode: Mode, f: Format, records: seq<Bytes>, inside: bool, j: nat)
    requires Matches(c, f) && c.initialOffset > 0 && j <= |records|
    ensures var k := Before(f, 0, records[..j], c.initialOffset);
            var r := ReadRecord(c, mode, Initial(LogBytes(f, 0, records[..j]), map[]));
            var y := System(EndOf(f, records, j), r.s, Returned(r.outcome));
            && (r.outcome.Record? <==> k < j)
            && ((exists start :: Following(c, f, records, inside, start, y)) <==> k < j)
            && (k < j ==>
                  && k == Before(f, 0, records, c.initialOffset) && r.outcome == Record(records[k])
                  && Following(c, f, records, inside, k, y))
  {
    hide LogBytes, ReadRecord, Before, Following, FindsFirst;
    var some := records[..j];
    var s := Initial(LogBytes(f, 0, some), map[]);
    var r := ReadRecord(c, mode, s);
    var y := System(EndOf(f, records, j), r.s, Returned(r.outcome));
    FirstRead(c, mode, f, some);
    FindsIff(c, f, some, s, r);
    if r.outcome.Record? {
      FirstFollows(c, mode, f, records, inside, j);
    } else {
      EndKeepsOffset(c, mode, s);
      forall start | Following(c, f, records, inside, start, y)
        ensures false
      {
        PastTheOffset(c, f, records, inside, start, y);
      }
    }
  }

  function Returned(outcome: Outcome): seq<Bytes> {
    if outcome.Record? then [outcome.bytes] else []
  }

  lemma FindsIff(c: Config, f: Format, records: seq<Bytes>, s: State, r: Result)
    requires FindsFirst(c, f, 0, records, s, r)
    ensures r.outcome.Record? <==> Before(f, 0, records, c.initialOffset) < |records|
  {
    hide Before, Synced, Visible, Boundary;
  }

  lemma PastTheOffset(c: Config, f: Format, records: seq<Bytes>, inside: bool, start: nat, y: System)
    requires Following(c, f, records, inside, start, y)
    ensures y.s.lastRecordOffset >= c.initialOffset
  {
    hide LogBytes, InGap, BetweenRecords, Synced;
  }

  // A call that returns nothing leaves the reader as if it had not returned anything before.
  lemma EndKeepsOffset(c: Config, mode: Mode, s: State)
    requires LogSessions.Fits(s) && !ReadRecord(c, mode, s).outcome.Record?
    ensures ReadRecord(c, mode, s).s.lastRecordOffset == s.lastRecordOffset
  {
    hide Loop, BlockStart, LogSessions.Fits, ReportDrop, LogSessions.Held;
    LogSessions.SkipFacts(c, 0, s);
    LogSessions.LoopFits(c, mode, s, IDLE);
    LogSessions.LoopFits(c, mode, SkipToInitialBlock(c, s).s, IDLE);
  }

  lemma FirstFollows(c: Config, mode: Mode, f: Format, records: seq<Bytes>, inside: bool, j: nat)
    requires Matches(c, f) && c.initialOffset > 0 && j <= |records|
    requires Before(f, 0, records[..j], c.initialOffset) < j
    ensures var k := Before(f, 0, records, c.initialOffset);
            var r := ReadRecord(c, mode, Initial(LogBytes(f, 0, records[..j]), map[]));
            && k == Before(f, 0, records[..j], c.initialOffset) && r.outcome == Record(records[k])
            && Following(c, f, records, inside, k, System(EndOf(f, records, j), r.s, [records[k]]))
  {
    hide LogBytes, Synced, Visible, ReadRecord, Before, BetweenRecords, RecordBytes, EndOf, HeaderOffset, TrailerSize,
         InGap;
    var some, data := records[..j], LogBytes(f, 0, records[..j]);
    var s := Initial(data, map[]);
    FirstRead(c, mode, f, some);
    ReadData(c, mode, s);
    InitialSynced(data);
    BeforePrefix(f, records, c.initialOffset, j);
    var k := Before(f, 0, records, c.initialOffset);
    RecordInLog(f, records, k);
    EndPrefix(f, records, j, k + 1);
    PrefixOfLog(f, records, j);
    PastOffset(c, f, records, j, k);
    var r := ReadRecord(c, mode, s);
    EofSame(s, r.s);
    AtEndOf(f, records, inside, j);
    IsBetween(f, records, inside, j, EndOf(f, records, j));
    AtEndOf(f, records, inside, k + 1);
    assert records[k..k + 1] == [records[k]];
  }

  // The end of a record whose header is not before the offset.
  lemma PastOffset(c: Config, f: Format, records: seq<Bytes>, j: nat, k: nat)
    requires k < j <= |records| && k == Before(f, 0, records[..j], c.initialOffset)
    ensures EndOf(f, records, k + 1) >= c.initialOffset
  {
    hide Before, LogBytes, RecordBytes;
    BeforeIsExact(f, 0, records[..j], c.initialOffset, k);
    EndPrefix(f, records, j, k);
    RecordInLog(f, records, k);
    HeaderInRecord(f, EndOf(f, records, k), records[k]);
  }

  lemma EndPrefix(f: Format, records: seq<Bytes>, j: nat, k: nat)
    requires k <= j <= |records|
    ensures Boundary(f, 0, records[..j], k) == EndOf(f, records, k)
  {
    hide LogBytes;
    assert records[..j][..k] == records[..k];
  }

  lemma PrefixOfLog(f: Format, records: seq<Bytes>, j: nat)
    requires j <= |records|
    ensures LogBytes(f, 0, records[..j]) <= LogBytes(f, 0, records)
            && |LogBytes(f, 0, records[..j])| == EndOf(f, records, j)
  {
    hide LogBytes;
    assert records == records[..j] + records[j..];
    LogBytesAppend(f, 0, records[..j], records[j..]);
  }

  // The records from the offset on, then, and as in one pass over the final file.
  lemma TailFromOffset(
    c: Config, mode: Mode, f: Format, records: seq<Bytes>, inside: bool, j: nat, events: seq<Event>, z: System)
    requires Matches(c, f) && c.initialOffset > 0 && j <= |records|
    requires Before(f, 0, records[..j], c.initialOffset) < j
    requires var r := ReadRecord(c, mode, Initial(LogBytes(f, 0, records[..j]), map[]));
             Runs(c, mode, f, records, inside, System(EndOf(f, records, j), r.s, Returned(r.outcome)), events, z)
    requires z.sent == |LogBytes(f, 0, records)|
    ensures z.returned + ReadAll(c, mode, UnmarkEof(c, z.s)).records
            == ReadAll(c, mode, Initial(LogBytes(f, 0, records), map[])).records
  {
    hide LogBytes, ReadRecord, Before, ReadAll, UnmarkEof, Following, Runs, Complete, EndOf, CutAt, Silent, QuietRun;
    FollowsFromOffset(c, mode, f, records, inside, j);
    var k := Before(f, 0, records, c.initialOffset);
    var r := ReadRecord(c, mode, Initial(LogBytes(f, 0, records[..j]), map[]));
    TailFollowing(c, mode, f, records, inside, k, System(EndOf(f, records, j), r.s, Returned(r.outcome)), events, z);
    InitialOffset(c, mode, f, records);
    CompleteAll(f, 0, records);
    assert records[k..|records|] == records[k..];
  }

  // Until then every call skips over as many bytes again, wherever the file stands.
  lemma SkipsAgain(c: Config, mode: Mode, s: State)
    requires s.lastRecordOffset < c.initialOffset && s.file.calls !in s.file.faults && BlockStart(c) > 0
    ensures var pos := Min(s.file.pos + BlockStart(c), |s.file.data|);
            ReadRecord(c, mode, s) ==
            Loop(c, mode, s.(endOfBuffer := BlockStart(c), file := s.file.(pos := pos, calls := s.file.calls + 1)),
              IDLE)
  {
    hide Loop;
  }

  // ---------- the offset a reader goes by ----------

  // The reader takes the file offset `base` for the start of the log.
  predicate Shifted(s: State, base: int) {
    s.file.pos == s.endOfBuffer + base
  }

  // A call that skips sets the base anew: to where the file stood when there is enough to skip. Only
  // for a reader at the start of its file that is 0.
  lemma SkipShifts(c: Config, mode: Mode, s: State)
    requires s.lastRecordOffset < c.initialOffset && (BlockStart(c) > 0 ==> s.file.calls !in s.file.faults)
    ensures var start := BlockStart(c);
            && Shifted(ReadRecord(c, mode, s).s, Min(s.file.pos + start, |s.file.data|) - start)
            && (s.file.pos + start <= |s.file.data| ==> Shifted(ReadRecord(c, mode, s).s, s.file.pos))
  {
    hide Loop, BlockStart;
    LoopInStep(c, mode, SkipToInitialBlock(c, s).s, IDLE);
  }

  // Until the next skip nothing changes it.
  lemma KeepsShift(c: Config, base: int, y: LogSessions.Session, e: LogSessions.Event)
    requires Shifted(y.s, base) && (e.Call? ==> y.s.lastRecordOffset >= c.initialOffset)
    ensures Shifted(LogSessions.Next(c, y, e).s, base)
  {
    hide Loop, ReportDrop;
    if e.Call? {
      LoopInStep(c, e.mode, y.s, IDLE);
    }
  }

  // The offset test, for a header at the start of the buffer. Before the base the subtraction wraps.
  lemma OffsetTest(c: Config, s: State, base: int)
    requires Loaded(s) && Shifted(s, base) && |s.buffer| <= BLOCK_SIZE
    requires c.initialOffset <= 0x1_0000_0000_0000_0000 - BLOCK_SIZE
    ensures Position(s) < c.initialOffset <==> base <= At(s) < base + c.initialOffset
  {
  }

  // A record's header at file offset h is passed over exactly if base <= h < base + initialOffset,
  // where it ought to be if h < initialOffset.
  lemma JudgedFromBase(c: Config, f: Format, s: State, base: int, t: Byte, payload: Bytes)
    requires Loaded(s) && Shifted(s, base) && |s.buffer| <= BLOCK_SIZE && Matches(c, f)
    requires c.initialOffset <= 0x1_0000_0000_0000_0000 - BLOCK_SIZE
    requires |payload| <= 0xffff && 1 <= t <= 8 && IsRecyclableType(t) == f.recycle
    requires Physical(f, t, payload) <= s.buffer
    ensures var r := ReadPhysical(c, s);
            && Loaded(r.s) && At(r.s) == At(s) + |Physical(f, t, payload)| && Shifted(r.s, base)
            && if base <= At(s) < base + c.initialOffset then r.code == BAD_RECORD
               else r.code == t && r.fragment == payload
  {
    hide Physical, Crc.Value, Crc.Unmask, DecodeFixed32, DecodeLength, Sub64, Loaded;
    OffsetTest(c, s, base);
    PhysicalInStep(c, s);
    PhysicalFields(f, t, payload, s.buffer);
    var size := |Physical(f, t, payload)|;
    DropIsLoaded(s, ReadPhysical(c, s).s, size);
  }

  // With an offset in the first block nothing is skipped, and every record that starts the buffer
  // when a call begins is returned, wherever in the file it lies.
  lemma BufferedReturned(c: Config, mode: Mode, f: Format, s: State, t: Byte, payload: Bytes)
    requires s.lastRecordOffset < c.initialOffset && BlockStart(c) == 0
    requires Loaded(s) && |s.buffer| <= BLOCK_SIZE && Matches(c, f)
    requires |payload| <= 0xffff && t == FragmentType(f.recycle, true, true)
    requires Physical(f, t, payload) <= s.buffer
    ensures var r := ReadRecord(c, mode, s);
            r.outcome == Record(payload) && r.s.lastRecordOffset == 0x1_0000_0000_0000_0000 - |s.buffer|
  {
    hide Physical, ReadPhysical, ReportDrop;
    SmallOffset(c);
    var s0 := SkipToInitialBlock(c, s).s;
    assert Loaded(s0) && Shifted(s0, s.file.pos);
    JudgedFromBase(c, f, s0, s.file.pos, t, payload);
  }

  lemma SmallOffset(c: Config)
    requires BlockStart(c) == 0
    ensures c.initialOffset < BLOCK_SIZE
  {
  }

  // For instance: a reader with offset 20 meets the end of a log after one record of one byte, and
  // then returns the second one, whose header is at 8. A new reader returns neither.
  lemma ReturnedTooEarly(c: Config, mode: Mode, a: Byte, b: Byte)
    requires c.initialOffset == 20
    ensures var f := Format(false, 0);
            var log := LogBytes(f, 0, [[a], [b]]);
            && |log| == 16
            && var r := ReadRecord(c, mode, Initial(log[..8], map[]));
            var r2 := ReadRecord(c, mode, UnmarkEof(c, Grown(r.s, log[8..])));
            && r.outcome.End? && r2.outcome == Record([b])
            && r2.s.lastRecordOffset == 0x1_0000_0000_0000_0000 - 8
            && ReadAll(c, mode, Initial(log, map[])).records == []
  {
    hide LogBytes, Physical, ReadAll, Loop, ReportDrop, UnmarkEof, ReadRecord;
    var f := Format(false, 0);
    var log, x, y := LogBytes(f, 0, [[a], [b]]), Physical(f, 1, [a]), Physical(f, 1, [b]);
    TwoBytes(a, b);
    assert log[..8] == x && log[8..] == y;
    var s := FirstByteRead(c, mode, a);
    var u := Arrives(c, s, x, y);
    BufferedReturned(c, mode, f, u, 1, [b]);
    InitialOffset(c, mode, f, [[a], [b]]);
    NoneFrom20(a, b);
  }

  // A block that one legacy record fills.
  predicate FillsBlock(record: Bytes) {
    |record| == BLOCK_SIZE - HEADER_SIZE
  }

  lemma BlockRecord(p: nat, record: Bytes)
    requires p % BLOCK_SIZE == 0 && FillsBlock(record)
    ensures var f := Format(false, 0);
            RecordBytes(f, p, record) == Physical(f, 1, record) && |RecordBytes(f, p, record)| == BLOCK_SIZE
  {
    hide Physical;
    var f := Format(false, 0);
    assert record[..|record|] == record;
    var x := Physical(f, 1, record);
    assert ZeroBytes(0) + (x + []) == x;
  }

  lemma BlockRecords(a: Bytes, b: Bytes, d: Bytes)
    requires FillsBlock(a) && FillsBlock(b) && FillsBlock(d)
    ensures var f := Format(false, 0);
            && LogBytes(f, 0, [a]) == Physical(f, 1, a)
            && LogBytes(f, 0, [a, b, d]) == Physical(f, 1, a) + Physical(f, 1, b) + Physical(f, 1, d)
            && |Physical(f, 1, a)| == |Physical(f, 1, b)| == |Physical(f, 1, d)| == BLOCK_SIZE
  {
    hide Physical, RecordBytes;
    var f := Format(false, 0);
    BlockRecord(0, a);
    BlockRecord(BLOCK_SIZE, b);
    BlockRecord(2 * BLOCK_SIZE, d);
    OneRecord(f, 0, a);
    OneRecord(f, BLOCK_SIZE, b);
    OneRecord(f, 2 * BLOCK_SIZE, d);
    assert [a, b, d] == [a] + ([b] + [d]);
    LogBytesAppend(f, 0, [a], [b] + [d]);
    LogBytesAppend(f, BLOCK_SIZE, [b], [d]);
  }

  // A reader with an offset of one block sees the end of a log of one block, and then two more
  // blocks: it returns the record of the third and never that of the second, which a new reader
  // returns.
  lemma LostToSkip(c: Config, mode: Mode, a: Bytes, b: Bytes, d: Bytes)
    requires c.initialOffset == BLOCK_SIZE && FillsBlock(a) && FillsBlock(b) && FillsBlock(d)
    ensures var f := Format(false, 0);
            var log := LogBytes(f, 0, [a, b, d]);
            && |log| == 3 * BLOCK_SIZE
            && var r := ReadRecord(c, mode, Initial(log[..BLOCK_SIZE], map[]));
            var u := UnmarkEof(c, Grown(r.s, log[BLOCK_SIZE..]));
            && r.outcome.End? && ReadRecord(c, mode, u).outcome == Record(d)
            && ReadAll(c, mode, Initial(log, map[])).records == [b, d]
  {
    hide LogBytes, Physical, ReadAll, Loop, ReportDrop;
    var f := Format(false, 0);
    var log := LogBytes(f, 0, [a, b, d]);
    BlockRecords(a, b, d);
    assert log[..BLOCK_SIZE] == Physical(f, 1, a);
    var s := Initial(log[..BLOCK_SIZE], map[]);
    SkipsAgain(c, mode, s);
    var s1 := s.(endOfBuffer := BLOCK_SIZE, file := s.file.(pos := BLOCK_SIZE, calls := 1));
    EmptyRead(c, mode, s1);
    var r := Loop(c, mode, s1, IDLE);
    assert log[..BLOCK_SIZE] + log[BLOCK_SIZE..] == log;
    var u := UnmarkEof(c, Grown(r.s, log[BLOCK_SIZE..]));
    assert u == s1.(file := s1.file.(data := log, calls := 2));
    SkipsAgain(c, mode, u);
    var s2 := u.(file := u.file.(pos := 2 * BLOCK_SIZE, calls := 3));
    assert log[2 * BLOCK_SIZE..3 * BLOCK_SIZE] == Physical(f, 1, d);
    BlockRead(c, mode, s2, d);
    SecondOnly(c, mode, a, b, d);
  }

  // The second record is in the buffer after resuming.
  lemma Arrives(c: Config, s: State, x: Bytes, y: Bytes) returns (u: State)
    requires |x| == |y| == 8 && s.file.data == x && s.file.pos == 8 && s.file.faults == map[]
    requires s.eof && s.eofOffset == 8 && s.buffer == [] && !s.readError
    ensures u == UnmarkEof(c, Grown(s, y)) && u.buffer == y && Loaded(u) && u.lastRecordOffset == s.lastRecordOffset
  {
    hide UnmarkEof;
    var g := Grown(s, y);
    UnmarkIs(c, g);
    u := UnmarkEof(c, g);
    assert (x + y)[8..16] == y;
  }

  lemma ByteRecord(p: nat, a: Byte)
    requires p <= 8
    ensures var f := Format(false, 0);
            RecordBytes(f, p, [a]) == Physical(f, 1, [a]) && TrailerSize(f, p) == 0
  {
    hide Physical;
    var f := Format(false, 0);
    var x := Physical(f, 1, [a]);
    assert [a][..1] == [a];
    assert ZeroBytes(0) + (x + []) == x;
  }

  lemma TwoBytes(a: Byte, b: Byte)
    ensures var f := Format(false, 0);
            && LogBytes(f, 0, [[a]]) == Physical(f, 1, [a])
            && LogBytes(f, 0, [[a], [b]]) == Physical(f, 1, [a]) + Physical(f, 1, [b])
            && |Physical(f, 1, [a])| == |Physical(f, 1, [b])| == 8
  {
    hide Physical, RecordBytes;
    var f := Format(false, 0);
    ByteRecord(0, a);
    ByteRecord(8, b);
    OneRecord(f, 0, [a]);
    OneRecord(f, 8, [b]);
    assert [[a], [b]] == [[a]] + [[b]];
    LogBytesAppend(f, 0, [[a]], [[b]]);
  }

  lemma NoneFrom20(a: Byte, b: Byte)
    ensures Before(Format(false, 0), 0, [[a], [b]], 20) == 2
  {
    hide RecordBytes, Physical;
    var f := Format(false, 0);
    ByteRecord(0, a);
    ByteRecord(8, b);
    var records := [[a], [b]];
    assert records[1..] == [[b]];
    assert Before(f, 8, [[b]], 20) == 1 + Before(f, 8 + |RecordBytes(f, 8, [b])|, [], 20);
  }

  // The first call passes over the one record in the file.
  lemma FirstByteRead(c: Config, mode: Mode, a: Byte) returns (s: State)
    requires c.initialOffset == 20
    ensures var x := Physical(Format(false, 0), 1, [a]);
            var r := ReadRecord(c, mode, Initial(x, map[]));
            && r.outcome.End? && s == r.s && s.file.data == x && s.file.pos == 8 && s.file.faults == map[]
            && s.eof && s.eofOffset == 8 && s.buffer == [] && s.lastRecordOffset == 0 && !s.readError
  {
    hide Physical, ReadPhysical, ReportDrop, Synced;
    var f := Format(false, 0);
    var x := Physical(f, 1, [a]);
    var i := Initial(x, map[]);
    InitialSynced(x);
    assert x[0..8] == x;
    NextHere(i, 0);
    var s1 := SkipFragment(c, mode, f, i, 0, 1, [a]);
    SkippedNext(c, mode, i, s1, 8);
    EndOfLog(c, mode, s1);
    EndsHere(s1, Loop(c, mode, s1, IDLE));
    s := Loop(c, mode, s1, IDLE).s;
  }

  // Nothing is left in the file.
  lemma EmptyRead(c: Config, mode: Mode, s: State)
    requires s.buffer == [] && !s.eof && !s.readError && s.file.pos == |s.file.data| && s.file.calls !in s.file.faults
    ensures Loop(c, mode, s, IDLE) ==
            Result(End, s.(eof := true, eofOffset := 0, file := s.file.(calls := s.file.calls + 1)))
  {
    hide ReportDrop, ReadPayload;
    var m := ReadMore(c, s);
    assert m.ok && m.s == s.(eof := true, eofOffset := 0, file := s.file.(calls := s.file.calls + 1));
    RefillFirst(c, s);
    assert ReadPhysical(c, m.s) == PhysicalResult(EOF, [], 0, m.s);
  }

  // A whole block is read and holds one record, at whatever offset the reader takes it to be.
  lemma BlockRead(c: Config, mode: Mode, s: State, d: Bytes)
    requires FillsBlock(d) && s.buffer == [] && !s.eof && !s.readError && s.file.calls !in s.file.faults
    requires s.file.pos + BLOCK_SIZE <= |s.file.data| && s.endOfBuffer >= c.initialOffset
    requires s.file.data[s.file.pos..s.file.pos + BLOCK_SIZE] == Physical(Format(false, 0), 1, d)
    ensures Loop(c, mode, s, IDLE).outcome == Record(d)
  {
    hide Physical, Crc.Value, Crc.Unmask, DecodeFixed32, DecodeLength, ReportDrop;
    var f := Format(false, 0);
    var m := ReadMore(c, s);
    RefillFirst(c, s);
    var x := m.s.buffer;
    assert x == Physical(f, 1, d);
    assert x[..|x|] == x;
    PhysicalFields(f, 1, d, x);
    assert Position(m.s) == s.endOfBuffer;
    assert ReadPhysical(c, m.s) == ReadPayload(c, m.s, 1, HEADER_SIZE, |d|);
  }

  lemma SecondOnly(c: Config, mode: Mode, a: Bytes, b: Bytes, d: Bytes)
    requires c.initialOffset == BLOCK_SIZE && FillsBlock(a) && FillsBlock(b) && FillsBlock(d)
    ensures ReadAll(c, mode, Initial(LogBytes(Format(false, 0), 0, [a, b, d]), map[])).records == [b, d]
  {
    hide LogBytes, Physical, ReadAll, RecordBytes;
    var f := Format(false, 0);
    var records := [a, b, d];
    InitialOffset(c, mode, f, records);
    BlockRecord(0, a);
    assert records[1..] == [b, d];
    assert Before(f, BLOCK_SIZE, [b, d], BLOCK_SIZE) == 0;
    assert Before(f, 0, records, BLOCK_SIZE) == 1;
  }
}
