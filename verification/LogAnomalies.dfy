/**
 What a reader makes of logs that no single writer wrote (rutil/log_reader.cc:101-225, 309-431): records
 that were broken off, zeroed or unknown physical records, the records of an older log, and reads that
 fail. What was assembled of a record is reported with its reason, and reading goes on where it can.
 */
module LogAnomalies {
  import opened Coding
  import opened LogFormat
  import opened LogReader
  import opened LogSoundness
  import opened LogParsing
  import opened LogRecords
  import opened LogTermination
  import opened LogRecovery
  import opened LogTail
  import opened LogTailLimits
  import opened LogOffset
  import opened LogCorruption
  import Crc = Crc32c

  // ---------- a record that was begun and not finished ----------

  // Reports do not influence what is read.
  lemma {:induction false} PhysicalReports(c: Config, s: State, reports: seq<Report>)
    requires s.file.faults == map[]
    ensures var r := ReadPhysical(c, s);
            r.s.reports == s.reports
            && ReadPhysical(c, s.(reports := reports)) == r.(s := r.s.(reports := reports))
    decreases Unread(s)
  {
    hide ReadPayload, DecodeFixed32, DecodeLength, Sub64;
    var s2 := s.(reports := reports);
    MoreReports(c, s, reports);
    if |s.buffer| < HEADER_SIZE {
      if ReadMore(c, s).ok {
        PhysicalReports(c, ReadMore(c, s).s, reports);
      }
    } else {
      var t, length := TypeOf(s.buffer[6]), DecodeLength(s.buffer[4], s.buffer[5]);
      var s1 := if IsRecyclableType(t) && Position(s) == 0 then s.(recycled := true) else s;
      MoreReports(c, s1, reports);
      if IsRecyclableType(t) && |s.buffer| < RECYCLABLE_HEADER_SIZE {
        if ReadMore(c, s1).ok {
          PhysicalReports(c, ReadMore(c, s1).s, reports);
        }
      } else {
        PayloadReports(c, s1, t, if IsRecyclableType(t) then RECYCLABLE_HEADER_SIZE else HEADER_SIZE, length, reports);
      }
    }
  }

  lemma MoreReports(c: Config, s: State, reports: seq<Report>)
    requires s.file.faults == map[]
    ensures var m := ReadMore(c, s);
            && m.s.reports == s.reports && m.s.file.faults == map[]
            && ReadMore(c, s.(reports := reports)) == m.(s := m.s.(reports := reports))
  {
  }

  lemma PayloadReports(c: Config, s: State, t: nat, headerSize: nat, length: nat, reports: seq<Report>)
    requires HEADER_SIZE <= headerSize <= |s.buffer|
    ensures var r := ReadPayload(c, s, t, headerSize, length);
            r.s.reports == s.reports
            && ReadPayload(c, s.(reports := reports), t, headerSize, length) == r.(s := r.s.(reports := reports))
  {
    hide Crc.Value, Crc.Unmask, DecodeFixed32, Sub64;
  }

  // The loop meets the first fragment of another record: what it has is reported and forgotten.
  lemma MeetsFirst(c: Config, mode: Mode, s: State, l: Local)
    requires s.file.faults == map[]
    requires var code := ReadPhysical(c, s).code; 1 <= code <= 8 && (LegacyType(code) == 1 || LegacyType(code) == 2)
    requires Synced(ReadPhysical(c, s).s) && c.initialOffset + |l.scratch| <= At(ReadPhysical(c, s).s)
    requires l.inFragment && Progress(s, ReadPhysical(c, s).s)
    ensures var partial := if l.scratch == [] then [] else [Report(|l.scratch|, PartialRecord)];
            Loop(c, mode, s, l) == Loop(c, mode, s.(reports := s.reports + Reported(c, partial)), IDLE)
  {
    hide ReadPhysical, Sub64, Synced, Progress;
    var partial := if l.scratch == [] then [] else [Report(|l.scratch|, PartialRecord)];
    var s2 := s.(reports := s.reports + Reported(c, partial));
    PhysicalReports(c, s, s2.reports);
    var r := ReadPhysical(c, s);
    BelowPosition(r.s, |l.scratch|, c.initialOffset);
    assert Unfinished(c, r.s, l) == r.s.(reports := s2.reports) by { assert s.reports + [] == s.reports; }
    assert Step(c, mode, s, l) == Step(c, mode, s2, IDLE);
    LoopStep(c, mode, s, l);
    LoopStep(c, mode, s2, IDLE);
    ProgressReports(s, s2, r.s, r.s.(reports := s2.reports));
  }

  lemma ProgressReports(s: State, s2: State, a: State, b: State)
    requires s2 == s.(reports := s2.reports) && b == a.(reports := b.reports) && Progress(s, a)
    ensures Progress(s2, b) && Progress(s, b)
  {
  }

  // A record that breaks off at a block, where a writer has begun anew: the new records are all
  // returned, and what was assembled of the broken one is reported, in every mode.
  lemma BrokenOff(c: Config, mode: Mode, f: Format, s: State, record: Bytes, n: nat, later: seq<Bytes>)
    requires Synced(s) && Matches(c, f) && At(s) >= c.initialOffset && s.lastRecordOffset >= c.initialOffset
    requires WholeUpTo(f, Visible(s), At(s), record, n) && n > TrailerSize(f, At(s)) && later != []
    requires Visible(s)[At(s) + n..] == LogBytes(f, At(s) + n, later)
    ensures var a := ReadAll(c, mode, s);
            && a.records == later && a.outcome.End?
            && a.s.reports == s.reports + Reported(c, NotEmpty(Assembled(f, At(s), n, PartialRecord)))
  {
    hide LogBytes, Fragments, Synced, Visible, ReadAll, Loop, NextHeader, WillFlag, RecordBytes, ReadPhysical, Reported,
         Assembled, TrailerSize;
    SyncedIsLoaded(s);
    var q, v := At(s) + n, Visible(s);
    var s1, l1 := ComesTo(c, mode, f, s, record, n);
    BrokenAligned(f, v, At(s), record, n);
    FirstIsNext(c, f, s1, q, later);
    NoFaults(s1);
    MeetsFirst(c, mode, s1, l1);
    var s2 := s1.(reports := s1.reports + Reported(c, NotEmpty([Report(|l1.scratch|, PartialRecord)])));
    SameButReports(s1, s2);
    Read1(c, mode, s);
    Read1(c, mode, s2);
    ReadAllSame(c, mode, s, s2);
    AllLater(c, mode, f, s2, later);
    LaterEnds(c, mode, f, s2, later);
  }

  // Reports of no bytes are not made.
  function NotEmpty(reports: seq<Report>): seq<Report> {
    if reports == [] || reports[0].bytes == 0 then [] else reports
  }

  lemma BrokenAligned(f: Format, v: Bytes, p: nat, record: Bytes, n: nat)
    requires WholeUpTo(f, v, p, record, n) && n > TrailerSize(f, p)
    ensures (p + n) % BLOCK_SIZE == 0 && p + n <= |v|
  {
    hide RecordBytes;
  }

  lemma NoFaults(s: State)
    requires Synced(s)
    ensures s.file.faults == map[]
  {
  }

  lemma SameButReports(s: State, s2: State)
    requires Synced(s) && s2 == s.(reports := s2.reports)
    ensures Synced(s2) && At(s2) == At(s) && Visible(s2) == Visible(s)
  {
  }

  // The next physical record is the first one of a record.
  lemma FirstIsNext(c: Config, f: Format, s: State, q: nat, later: seq<Bytes>)
    requires Synced(s) && Matches(c, f) && NextHeader(s, q) && q % BLOCK_SIZE == 0 && later != []
    requires q >= c.initialOffset && q <= |Visible(s)| && Visible(s)[q..] == LogBytes(f, q, later)
    ensures var r := ReadPhysical(c, s);
            && 1 <= r.code <= 8 && (LegacyType(r.code) == 1 || LegacyType(r.code) == 2)
            && Synced(r.s) && At(r.s) >= q && Progress(s, r.s)
  {
    hide LogBytes, Fragments, Physical, ReadPhysical, Synced, NextHeader, Visible;
    var v, x := Visible(s), RecordBytes(f, q, later[0]);
    FirstBytes(f, q, later);
    var n, t, y, rest := FragmentsSplit(f, q, later[0], true);
    assert x == ZeroBytes(0) + (y + rest) == y + rest;
    PrefixSplit(v, q, y, rest + LogBytes(f, q + |x|, later[1..])) by {
      assert y + (rest + LogBytes(f, q + |x|, later[1..])) == x + LogBytes(f, q + |x|, later[1..]);
    }
    PhysicalWhole(c, f, s, q, t, later[0][..n]);
    PhysicalProgress(c, s);
  }

  lemma FirstBytes(f: Format, q: nat, later: seq<Bytes>)
    requires later != []
    ensures LogBytes(f, q, later)
            == RecordBytes(f, q, later[0]) + LogBytes(f, q + |RecordBytes(f, q, later[0])|, later[1..])
  {
    hide RecordBytes;
  }

  // ---------- unknown types ----------

  const PLAIN: Format := Format(false, 0)

  // A type byte that no writer uses, and that is not taken for one of the reader's own codes.
  predicate Unknown(t: Byte, payload: Bytes) {
    t > 14 || (t == 0 && payload != [])
  }

  ghost predicate ReadsUnknown(s: State, end: nat, t: Byte, payload: Bytes, r: PhysicalResult) {
    Moved(s, r.s, end) && r.code == TypeOf(t) && r.fragment == payload
  }

  lemma ParseUnknown(c: Config, s: State, t: Byte, payload: Bytes)
    requires Synced(s) && |payload| <= 0xffff && Unknown(t, payload) && At(s) >= c.initialOffset
    requires Physical(PLAIN, t, payload) <= s.buffer
    ensures ReadsUnknown(s, At(s) + |Physical(PLAIN, t, payload)|, t, payload, ReadPhysical(c, s))
  {
    hide Physical, Crc.Value, Crc.Unmask, DecodeFixed32, DecodeLength, Sub64;
    var size := |Physical(PLAIN, t, payload)|;
    PhysicalFields(PLAIN, t, payload, s.buffer);
    assert Position(s) == At(s) by { PositionIsAt(s); }
    DropKeepsSync(s, s.(buffer := s.buffer[size..]), size);
  }

  lemma PhysicalUnknown(c: Config, s: State, q: nat, t: Byte, payload: Bytes)
    requires Synced(s) && |payload| <= 0xffff && Unknown(t, payload) && q >= c.initialOffset
    requires NextHeader(s, q) && q % BLOCK_SIZE + |Physical(PLAIN, t, payload)| <= BLOCK_SIZE
    requires q + |Physical(PLAIN, t, payload)| <= |Visible(s)|
    requires Visible(s)[q..q + |Physical(PLAIN, t, payload)|] == Physical(PLAIN, t, payload)
    ensures ReadsUnknown(s, q + |Physical(PLAIN, t, payload)|, t, payload, ReadPhysical(c, s))
  {
    hide Physical, Moved, ReadPhysical, ReadMore;
    var size := |Physical(PLAIN, t, payload)|;
    if q == At(s) && s.buffer != [] {
      assert size <= |s.buffer|;
      assert s.buffer[..size] == Visible(s)[q..q + size];
      ParseUnknown(c, s, t, payload);
    } else {
      RefillLemma(c, s);
      var m := ReadMore(c, s);
      assert m.s.buffer[..size] == Visible(s)[q..q + size];
      ParseUnknown(c, m.s, t, payload);
      RefillFirst(c, s);
      MovedTrans(s, m.s, ReadPhysical(c, s).s, q, q + size);
    }
  }

  // It is reported with what was assembled, and passed over.
  lemma StepUnknown(c: Config, mode: Mode, s: State, l: Local, q: nat, t: Byte, payload: Bytes) returns (s': State)
    requires Synced(s) && |payload| <= 0xffff && Unknown(t, payload) && c.initialOffset + |l.scratch| <= q
    requires NextHeader(s, q) && q % BLOCK_SIZE + |Physical(PLAIN, t, payload)| <= BLOCK_SIZE
    requires q + |Physical(PLAIN, t, payload)| <= |Visible(s)|
    requires Visible(s)[q..q + |Physical(PLAIN, t, payload)|] == Physical(PLAIN, t, payload)
    ensures Moved(s, s'.(reports := s.reports), q + |Physical(PLAIN, t, payload)|)
    ensures Loop(c, mode, s, l) == Loop(c, mode, s', IDLE)
    ensures var lost := |payload| + if l.inFragment then |l.scratch| else 0;
            s'.reports == s.reports + Reported(c, [Report(lost, UnknownType(TypeOf(t)))])
  {
    hide Physical, ReadPhysical, Sub64, Synced, NextHeader, Visible;
    PhysicalUnknown(c, s, q, t, payload);
    PhysicalProgress(c, s);
    var r := ReadPhysical(c, s);
    var lost := |payload| + if l.inFragment then |l.scratch| else 0;
    BelowPosition(r.s, lost, c.initialOffset);
    s' := Step(c, mode, s, l).s;
    LoopStep(c, mode, s, l);
    IdleAnyway(c, mode, s', Step(c, mode, s, l).l);
  }

  // A physical record of such a type, with a right checksum, between records or in the place of a
  // fragment: it is reported once, and all records after it are returned.
  lemma UnknownRecord(
    c: Config, mode: Mode, f: Format, s: State, p: nat, record: Bytes, n: nat, t: Byte, payload: Bytes,
    later: seq<Bytes>)
    requires Synced(s) && Matches(c, f) && p == At(s) >= c.initialOffset && s.lastRecordOffset >= c.initialOffset
    requires |payload| <= 0xffff && Unknown(t, payload) && PhysicalAt(f, p, n) && p + n <= |Visible(s)|
    requires WholeUpTo(f, Visible(s), p, record, n)
    requires var x := Physical(PLAIN, t, payload);
             && (p + n) % BLOCK_SIZE + |x| <= BLOCK_SIZE
             && Visible(s)[p + n..] == x + LogBytes(f, p + n + |x|, later)
    ensures var a := ReadAll(c, mode, s);
            && a.records == later && a.outcome.End?
            && a.s.reports
               == s.reports + Reported(c, [Report(|payload| + PayloadOf(f, p, n), UnknownType(TypeOf(t)))])
  {
    hide LogBytes, Physical, Synced, Visible, ReadAll, Loop, NextHeader, WillFlag, RecordBytes, Reported, TrailerSize;
    SyncedIsLoaded(s);
    var q, v, x := p + n, Visible(s), Physical(PLAIN, t, payload);
    var s1, l1 := ComesTo(c, mode, f, s, record, n);
    Assembles1(f, p, n, l1);
    PrefixSplit(v, q, x, LogBytes(f, q + |x|, later));
    var s2 := StepUnknown(c, mode, s1, l1, q, t, payload);
    MovedReports(s1, s2, q + |x|);
    Read1(c, mode, s);
    Read1(c, mode, s2);
    ReadAllSame(c, mode, s, s2);
    assert v[q + |x|..] == v[q..][|x|..] == LogBytes(f, q + |x|, later);
    AllLater(c, mode, f, s2, later);
    LaterEnds(c, mode, f, s2, later);
  }

  // The payload of a record in its first n bytes.
  function PayloadOf(f: Format, p: nat, n: nat): nat
    requires PhysicalAt(f, p, n)
  {
    var k := TrailerSize(f, p);
    if n > k then PayloadBefore(f, p + k, n - k) else 0
  }

  lemma Assembles1(f: Format, p: nat, n: nat, l: Local)
    requires PhysicalAt(f, p, n)
    requires forall reason :: Assembled(f, p, n, reason) == if l.inFragment then [Report(|l.scratch|, reason)] else []
    ensures PayloadOf(f, p, n) == if l.inFragment then |l.scratch| else 0
  {
    assert Assembled(f, p, n, PartialRecord) == if l.inFragment then [Report(|l.scratch|, PartialRecord)] else [];
  }

  // ---------- zeroes ----------

  lemma PhysicalZeros(c: Config, s: State, q: nat)
    requires Synced(s) && NextHeader(s, q) && q <= |Visible(s)|
    requires var b := BlockRest(Visible(s), q); |b| >= HEADER_SIZE && b == ZeroBytes(|b|)
    ensures var r := ReadPhysical(c, s);
            r.code == BAD_RECORD && Moved(s, r.s, q + |BlockRest(Visible(s), q)|) && r.s.buffer == []
  {
    hide Moved, ReadPhysical, ReadMore;
    var b := BlockRest(Visible(s), q);
    if q == At(s) && s.buffer != [] {
      assert s.buffer == b;
      LongZeros(c, s);
    } else {
      assert !s.eof && q == s.file.pos && q % BLOCK_SIZE == 0;
      RefillLemma(c, s);
      var m := ReadMore(c, s);
      assert m.s.buffer == b;
      LongZeros(c, m.s);
      RefillFirst(c, s);
      MovedTrans(s, m.s, ReadPhysical(c, s).s, q, q + |b|);
    }
  }

  // Zeroes to the end of a block are no record. What was assembled before them is reported.
  lemma StepZeros(c: Config, mode: Mode, s: State, l: Local, q: nat) returns (s': State)
    requires Synced(s) && NextHeader(s, q) && q <= |Visible(s)| && c.initialOffset + |l.scratch| <= q
    requires !l.inFragment ==> l.scratch == []
    requires var b := BlockRest(Visible(s), q); |b| >= HEADER_SIZE && b == ZeroBytes(|b|)
    ensures Moved(s, s'.(reports := s.reports), q + |BlockRest(Visible(s), q)|)
    ensures Loop(c, mode, s, l) == Loop(c, mode, s', IDLE)
    ensures s'.reports
            == s.reports + Reported(c, if l.inFragment then [Report(|l.scratch|, MiddleOfRecord)] else [])
  {
    hide ReadPhysical, Sub64, Synced, NextHeader, Visible, BlockRest;
    PhysicalZeros(c, s, q);
    PhysicalProgress(c, s);
    var r := ReadPhysical(c, s);
    BelowPosition(r.s, |l.scratch|, c.initialOffset);
    s' := Step(c, mode, s, l).s;
    LoopStep(c, mode, s, l);
    IdleAnyway(c, mode, s', Step(c, mode, s, l).l);
    assert s.reports + [] == s.reports;
  }

  // A record of which the rest of a block was never written, as in a file that was allocated ahead: the
  // records that begin in later blocks are returned.
  lemma ZeroedBlock(
    c: Config, mode: Mode, f: Format, s: State, p: nat, record: Bytes, n: nat, e: nat, orphan: bool, left: Bytes,
    later: seq<Bytes>)
    requires Synced(s) && Matches(c, f) && p == At(s) >= c.initialOffset && s.lastRecordOffset >= c.initialOffset
    requires WholeUpTo(f, Visible(s), p, record, n) && PhysicalAt(f, p, n)
    requires p + n <= |Visible(s)| && e == Min(BlockEnd(p + n), |Visible(s)|)
    requires e - (p + n) >= HEADER_SIZE && Visible(s)[p + n..e] == ZeroBytes(e - (p + n))
    requires (orphan ==> HeaderFits(f, e)) && Continues(f, Visible(s), e, orphan, left, later)
    ensures var a := ReadAll(c, mode, s);
            && a.records == later && a.outcome.End?
            && a.s.reports
               == s.reports + Reported(c, Assembled(f, p, n, MiddleOfRecord) + OrphanReports(f, e, orphan, left))
  {
    hide LogBytes, Fragments, Synced, Visible, ReadAll, Loop, NextHeader, WillFlag, Assembled, OrphanReports, Continues,
         Reported, RecordBytes;
    SyncedIsLoaded(s);
    var s1, l1 := ComesTo(c, mode, f, s, record, n);
    var s2 := StepZeros(c, mode, s1, l1, p + n);
    MovedReports(s1, s2, e);
    Read1(c, mode, s);
    Read1(c, mode, s2);
    ReadAllSame(c, mode, s, s2);
    ReadsLater(c, mode, f, s2, orphan, left, later);
    ReportedTwice(c, s.reports, Assembled(f, p, n, MiddleOfRecord), OrphanReports(f, e, orphan, left));
  }

  lemma ReportedTwice(c: Config, base: seq<Report>, a: seq<Report>, b: seq<Report>)
    ensures base + Reported(c, a) + Reported(c, b) == base + Reported(c, a + b)
  {
  }

  // ---------- the records of an older log ----------

  // The next header is that of another recyclable log.
  predicate OldAt(c: Config, b: Bytes) {
    && |b| >= RECYCLABLE_HEADER_SIZE && IsRecyclableType(TypeOf(b[6]))
    && DecodeFixed32(b[7..]) != c.logNumber
  }

  lemma PhysicalOld(c: Config, s: State, q: nat)
    requires Synced(s) && NextHeader(s, q) && q <= |Visible(s)| && OldAt(c, BlockRest(Visible(s), q))
    ensures var r := ReadPhysical(c, s);
            && r.code == OLD_RECORD && Synced(r.s) && At(r.s) == q && r.s.reports == s.reports
            && r.s.file.data == s.file.data && Stale(c, r.s)
            && (Progress(s, r.s) || Stale(c, s))
  {
    hide ReadPhysical, ReadMore, OldAt, Stale;
    var b := BlockRest(Visible(s), q);
    OldLong(c, b);
    if q == At(s) && s.buffer != [] {
      assert s.buffer == b;
      OldRead(c, s);
    } else {
      assert !s.eof && q == s.file.pos && q % BLOCK_SIZE == 0;
      RefillLemma(c, s);
      var m := ReadMore(c, s);
      assert m.s.buffer == b;
      OldRead(c, m.s);
      RefillFirst(c, s);
    }
  }

  lemma OldLong(c: Config, b: Bytes)
    requires OldAt(c, b)
    ensures |b| >= RECYCLABLE_HEADER_SIZE
  {
    hide DecodeFixed32;
  }

  // A header of another number is not consumed.
  lemma OldRead(c: Config, s: State)
    requires Synced(s) && OldAt(c, s.buffer)
    ensures var r := ReadPhysical(c, s);
            && r.code == OLD_RECORD && Synced(r.s) && At(r.s) == At(s) && r.s.reports == s.reports
            && r.s.file == s.file && Stale(c, s) && Stale(c, r.s)
  {
    hide DecodeFixed32, Position;
    DropKeepsSync(s, ReadPhysical(c, s).s, 0) by { assert s.buffer[0..] == s.buffer; }
  }

  // A recyclable log that ends before the records of an older one: reading ends there, and only absolute
  // consistency reports what was assembled. In the mode that skips corrupted records it never ends.
  lemma OldTail(c: Config, mode: Mode, f: Format, s: State, p: nat, record: Bytes, n: nat)
    requires Synced(s) && Matches(c, f) && p == At(s) >= c.initialOffset && s.lastRecordOffset >= c.initialOffset
    requires WholeUpTo(f, Visible(s), p, record, n) && PhysicalAt(f, p, n) && p + n <= |Visible(s)|
    requires OldAt(c, BlockRest(Visible(s), p + n))
    ensures var a := ReadAll(c, mode, s);
            && a.records == []
            && (if mode.SkipAnyCorrupted? then a.outcome.Spin? else a.outcome.End?)
            && (!mode.SkipAnyCorrupted? ==>
                  a.s.reports == s.reports
                    + Reported(c, if mode.AbsoluteConsistency? then Assembled(f, p, n, TrailingData) else []))
  {
    hide Synced, Visible, ReadAll, Loop, NextHeader, WillFlag, Assembled, RecordBytes, OldAt, ReadPhysical, Sub64,
         Stale, BlockRest;
    SyncedIsLoaded(s);
    var s1, l1 := ComesTo(c, mode, f, s, record, n);
    PhysicalOld(c, s1, p + n);
    var r := ReadPhysical(c, s1);
    BelowPosition(r.s, |l1.scratch|, c.initialOffset);
    LoopStep(c, mode, s1, l1);
    Read1(c, mode, s);
    assert s.reports + [] == s.reports;
    if mode.SkipAnyCorrupted? {
      OldSpins(c, s1, l1);
    }
    ReadAllNot(c, mode, s);
  }

  lemma OldSpins(c: Config, s: State, l: Local)
    requires var r := ReadPhysical(c, s); r.code == OLD_RECORD && Stale(c, r.s) && (Progress(s, r.s) || Stale(c, s))
    ensures Loop(c, SkipAnyCorrupted, s, l).outcome.Spin?
  {
    hide ReadPhysical, Stale, ReportDrop, Loop;
    if Stale(c, s) {
      StaleSpins(c, s, l);
    } else {
      var r := Step(c, SkipAnyCorrupted, s, l);
      StaleReports(c, ReadPhysical(c, s).s, r.s);
      LoopStep(c, SkipAnyCorrupted, s, l);
      StaleSpins(c, r.s, r.l);
    }
  }

  lemma StaleReports(c: Config, s: State, s': State)
    requires Stale(c, s) && s' == s.(reports := s'.reports)
    ensures Stale(c, s')
  {
  }

  lemma ReadAllNot(c: Config, mode: Mode, s: State)
    requires !ReadRecord(c, mode, s).outcome.Record?
    ensures var r := ReadRecord(c, mode, s); ReadAll(c, mode, s) == ReadAllResult([], r.outcome, r.s)
  {
    hide ReadRecord;
  }

  // ---------- reads that fail ----------

  // A read of the file that fails returns no record. It is reported as a block, unless that block would
  // begin before the initial offset; what was assembled is reported only in absolute consistency mode.
  lemma FailedRead(c: Config, mode: Mode, s: State, l: Local)
    requires |s.buffer| < HEADER_SIZE && !s.eof && !s.readError && s.file.calls in s.file.faults
    requires s.endOfBuffer >= c.initialOffset + |l.scratch|
    requires c.initialOffset <= 0x1_0000_0000_0000_0000 - BLOCK_SIZE
    ensures var r := Loop(c, mode, s, l);
            var told := r.s.endOfBuffer < BLOCK_SIZE || r.s.endOfBuffer >= BLOCK_SIZE + c.initialOffset;
            && r.outcome.End? && r.s.readError && r.s.buffer == [] && r.s.lastRecordOffset == s.lastRecordOffset
            && r.s.endOfBuffer - s.endOfBuffer == r.s.file.pos - s.file.pos
            && r.s.reports == s.reports + Reported(c, (if told then [Report(BLOCK_SIZE, IoError)] else [])
                 + if mode.AbsoluteConsistency? && l.inFragment then [Report(|l.scratch|, TrailingData)] else [])
  {
    FailedMore(c, s);
    hide ReadMore;
    LoopStep(c, mode, s, l);
  }

  lemma FailedMore(c: Config, s: State)
    requires |s.buffer| < HEADER_SIZE && !s.eof && !s.readError && s.file.calls in s.file.faults
    requires c.initialOffset <= 0x1_0000_0000_0000_0000 - BLOCK_SIZE
    ensures var m := ReadMore(c, s);
            var told := m.s.endOfBuffer < BLOCK_SIZE || m.s.endOfBuffer >= BLOCK_SIZE + c.initialOffset;
            && !m.ok && m.code == EOF && m.s.readError && m.s.buffer == []
            && m.s.lastRecordOffset == s.lastRecordOffset
            && m.s.endOfBuffer - s.endOfBuffer == m.s.file.pos - s.file.pos >= 0
            && m.s.reports == s.reports + Reported(c, if told then [Report(BLOCK_SIZE, IoError)] else [])
  {
  }

  // After that the reader returns nothing and reports nothing, whatever happens to the file.
  lemma NothingAfterFailure(c: Config, mode: Mode, s: State, more: Bytes)
    requires s.readError && s.buffer == [] && s.lastRecordOffset >= c.initialOffset
    ensures ReadRecord(c, mode, s) == Result(End, s) && UnmarkEof(c, s) == s
    ensures var g := Grown(s, more); ReadRecord(c, mode, g) == Result(End, g) && UnmarkEof(c, g) == g
  {
  }

  // A failed skip returns no record. It is reported exactly if bytes were left in the buffer, because the
  // subtraction then wraps; that of a new reader never is.
  lemma FailedSkip(c: Config, mode: Mode, s: State)
    requires s.lastRecordOffset < c.initialOffset && BlockStart(c) > 0 && s.file.calls in s.file.faults
    requires |s.buffer| <= BLOCK_SIZE && c.initialOffset <= 0x1_0000_0000_0000_0000 - 2 * BLOCK_SIZE
    ensures var r := ReadRecord(c, mode, s);
            && r.outcome.End? && r.s.file.pos == s.file.pos && r.s.lastRecordOffset == s.lastRecordOffset
            && r.s.reports == s.reports + Reported(c, if s.buffer != [] then [Report(BlockStart(c), IoError)] else [])
  {
    StartBound(c);
    hide BlockStart;
  }

  lemma StartBound(c: Config)
    ensures BlockStart(c) <= c.initialOffset + BLOCK_SIZE
  {
  }

  // A resumption whose read fails reports the bytes that arrived, and the reader gives up its file.
  lemma FailedResumption(c: Config, s: State)
    requires !s.readError && s.eofOffset > 0 && s.file.calls in s.file.faults
    requires s.endOfBuffer >= c.initialOffset + |s.buffer|
    ensures var u := UnmarkEof(c, s);
            var arrived := u.file.pos - s.file.pos;
            && u.readError && u.buffer == s.buffer
            && u.reports == s.reports + Reported(c, if arrived > 0 then [Report(arrived, IoError)] else [])
  {
  }

  // ---------- without checksums ----------

  // A reader that does not check takes a physical record as it comes, whatever its checksum says.
  lemma ChecksumIgnored(c: Config, s: State, crc: Bytes)
    requires !c.checksum && |s.buffer| >= RECYCLABLE_HEADER_SIZE && |crc| == 4
    ensures var s2 := s.(buffer := crc + s.buffer[4..]);
            var a, b := ReadPhysical(c, s), ReadPhysical(c, s2);
            b.code == a.code && b.fragment == a.fragment && b.drop == a.drop
    ensures !(ReadPhysical(c, s).code == BAD_RECORD_CHECKSUM)
            || s.buffer[6] == BAD_RECORD_CHECKSUM
  {
    hide ReadPayload, Position, DecodeFixed32, DecodeLength;
    var x, y := s.buffer, crc + s.buffer[4..];
    assert forall i :: 4 <= i < |x| ==> y[i] == x[i];
    assert y[7..][..4] == x[7..][..4];
    DecodePrefix(y[7..], x[7..]);
    var t, length := TypeOf(x[6]), DecodeLength(x[4], x[5]);
    var s1 := if IsRecyclableType(t) && Position(s) == 0 then s.(recycled := true) else s;
    assert Position(s.(buffer := y)) == Position(s) by { SamePosition(s, y); }
    PayloadIgnores(c, s1, y, t, if IsRecyclableType(t) then RECYCLABLE_HEADER_SIZE else HEADER_SIZE, length);
  }

  lemma SamePosition(s: State, y: Bytes)
    requires |y| == |s.buffer|
    ensures Position(s.(buffer := y)) == Position(s)
  {
  }

  lemma PayloadIgnores(c: Config, s: State, y: Bytes, t: nat, headerSize: nat, length: nat)
    requires !c.checksum && HEADER_SIZE <= headerSize <= |s.buffer| == |y|
    requires forall i :: 4 <= i < |y| ==> y[i] == s.buffer[i]
    ensures var a := ReadPayload(c, s, t, headerSize, length);
            var b := ReadPayload(c, s.(buffer := y), t, headerSize, length);
            && b.code == a.code && b.fragment == a.fragment && b.drop == a.drop
            && (a.code == BAD_RECORD_CHECKSUM ==> t == BAD_RECORD_CHECKSUM)
  {
    hide Sub64;
    SamePosition(s, y);
    var size := headerSize + length;
    if size <= |y| {
      assert y[headerSize..size] == s.buffer[headerSize..size];
    }
  }
}
