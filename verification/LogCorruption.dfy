/**
 What a reader makes of a damaged log (rutil/log_reader.cc:192-210, 343-431): a physical record whose
 checksum or length is wrong costs the rest of its block, and everything that begins in a later
 block is read.
 */
module LogCorruption {
  import opened Coding
  import opened LogFormat
  import opened LogReader
  import opened LogSoundness
  import opened LogParsing
  import opened LogRecords
  import opened LogTermination
  import opened LogRecovery
  import opened LogTail
  import opened LogTailLimits
  import opened LogOffset
  import Crc = Crc32c

  // ---------- damage ----------

  datatype Damage = WrongSum | LongLength

  function ReasonOf(d: Damage): Reason {
    if d.WrongSum? then BadChecksum else BadLength
  }

  // The bytes from q to the end of its block, or to the end of the file.
  function BlockRest(v: Bytes, q: nat): Bytes
    requires q <= |v|
  {
    v[q..Min(BlockEnd(q), |v|)]
  }

  // A header, complete and of this log.
  predicate OwnHeader(c: Config, b: Bytes) {
    && |b| >= HEADER_SIZE
    && (IsRecyclableType(TypeOf(b[6])) ==> |b| >= RECYCLABLE_HEADER_SIZE && DecodeFixed32(b[7..]) == c.logNumber)
  }

  function SizeSaid(b: Bytes): nat
    requires |b| >= HEADER_SIZE
  {
    (if IsRecyclableType(TypeOf(b[6])) then RECYCLABLE_HEADER_SIZE else HEADER_SIZE) + DecodeLength(b[4], b[5])
  }

  // The rest b of a block starts with such a header, but its checksum is not that of the bytes it covers,
  // or its length passes the end of a block that is there as a whole.
  predicate Damaged(c: Config, b: Bytes, whole: bool, d: Damage) {
    && OwnHeader(c, b)
    && match d
       case WrongSum =>
         && c.checksum && SizeSaid(b) <= |b| && !(b[6] == 0 && DecodeLength(b[4], b[5]) == 0)
         && Crc.Unmask(DecodeFixed32(b)) != Crc.Value(b[6..SizeSaid(b)])
       case LongLength => whole && SizeSaid(b) > |b|
  }

  // ---------- one physical record ----------

  ghost predicate ReadsDamage(s: State, end: nat, n: nat, d: Damage, r: PhysicalResult) {
    && Moved(s, r.s, end) && r.s.buffer == [] && r.drop == n
    && r.code == if d.WrongSum? then BAD_RECORD_CHECKSUM else BAD_RECORD_LEN
  }

  lemma ParseDamage(c: Config, s: State, d: Damage)
    requires Synced(s) && Damaged(c, s.buffer, !s.eof, d)
    ensures ReadsDamage(s, s.file.pos, |s.buffer|, d, ReadPhysical(c, s))
  {
    hide Crc.Value, Crc.Unmask, DecodeFixed32, DecodeLength, Position, Synced, Moved;
    BufferEnds(s);
    var s1 := if Position(s) == 0 && IsRecyclableType(TypeOf(s.buffer[6])) then s.(recycled := true) else s;
    assert s.buffer[|s.buffer|..] == [];
    DropKeepsSync(s, s1.(buffer := []), |s.buffer|);
  }

  lemma PhysicalDamage(c: Config, s: State, q: nat, d: Damage)
    requires Synced(s) && NextHeader(s, q) && q <= |Visible(s)|
    requires Damaged(c, BlockRest(Visible(s), q), BlockEnd(q) <= |Visible(s)|, d)
    ensures var b := BlockRest(Visible(s), q);
            ReadsDamage(s, q + |b|, |b|, d, ReadPhysical(c, s))
  {
    hide Damaged, Moved, ReadPhysical, ReadMore;
    var b := BlockRest(Visible(s), q);
    DamageLong(c, b, BlockEnd(q) <= |Visible(s)|, d);
    if q == At(s) && s.buffer != [] {
      assert s.buffer == b;
      DamageStill(c, b, BlockEnd(q) <= |Visible(s)|, !s.eof, d);
      ParseDamage(c, s, d);
    } else {
      assert !s.eof && q == s.file.pos && q % BLOCK_SIZE == 0;
      RefillLemma(c, s);
      var m := ReadMore(c, s);
      assert m.s.buffer == b;
      DamageStill(c, b, BlockEnd(q) <= |Visible(s)|, !m.s.eof, d);
      ParseDamage(c, m.s, d);
      RefillFirst(c, s);
      MovedTrans(s, m.s, ReadPhysical(c, s).s, q, q + |b|);
    }
  }

  lemma DamageLong(c: Config, b: Bytes, whole: bool, d: Damage)
    requires Damaged(c, b, whole, d)
    ensures |b| >= HEADER_SIZE
  {
    hide Crc.Value, Crc.Unmask, DecodeFixed32, DecodeLength;
  }

  lemma DamageStill(c: Config, b: Bytes, whole: bool, more: bool, d: Damage)
    requires Damaged(c, b, whole, d) && (whole ==> more)
    ensures Damaged(c, b, more, d)
  {
    hide Crc.Value, Crc.Unmask, DecodeFixed32, DecodeLength;
  }

  // ---------- whether the log is recyclable, for the reader ----------

  // The flag is known: it is set, or the reader is past the start of the file, where alone it is set.
  predicate Flagged(s: State, recycled: bool) {
    s.recycled == recycled && (recycled || |s.buffer| < s.endOfBuffer)
  }

  lemma {:induction false} PhysicalFlag(c: Config, s: State, recycled: bool)
    requires Flagged(s, recycled)
    ensures Flagged(ReadPhysical(c, s).s, recycled)
    decreases Unread(s)
  {
    hide ReadPayload, DecodeFixed32, DecodeLength, ReportDrop;
    if |s.buffer| < HEADER_SIZE {
      if ReadMore(c, s).ok {
        PhysicalFlag(c, ReadMore(c, s).s, recycled);
      }
    } else {
      var t, length := TypeOf(s.buffer[6]), DecodeLength(s.buffer[4], s.buffer[5]);
      assert IsRecyclableType(t) && Position(s) == 0 ==> recycled;
      if IsRecyclableType(t) {
        var s1 := if Position(s) == 0 then s.(recycled := true) else s;
        if |s.buffer| < RECYCLABLE_HEADER_SIZE {
          if ReadMore(c, s1).ok {
            PhysicalFlag(c, ReadMore(c, s1).s, recycled);
          }
        } else {
          PayloadFlag(c, s1, t, RECYCLABLE_HEADER_SIZE, length);
        }
      } else {
        PayloadFlag(c, s, t, HEADER_SIZE, length);
      }
    }
  }

  lemma PayloadFlag(c: Config, s: State, t: nat, headerSize: nat, length: nat)
    requires HEADER_SIZE <= headerSize <= |s.buffer|
    ensures var r := ReadPayload(c, s, t, headerSize, length).s;
            r.recycled == s.recycled && r.endOfBuffer == s.endOfBuffer && |r.buffer| < |s.buffer|
  {
    hide Crc.Value, Crc.Unmask, DecodeFixed32, Position;
  }

  // What the flag will be once another physical record has been read.
  predicate WillFlag(c: Config, s: State, recycled: bool) {
    Flagged(ReadPhysical(c, s).s, recycled)
  }

  lemma StepFlag(c: Config, mode: Mode, s: State, l: Local, recycled: bool)
    requires WillFlag(c, s, recycled)
    ensures Flagged(Step(c, mode, s, l).s, recycled) && WillFlag(c, Step(c, mode, s, l).s, recycled)
  {
    hide ReadPhysical, Dispatch;
    PhysicalFlag(c, Step(c, mode, s, l).s, recycled);
  }

  lemma {:induction false} LoopFlag(c: Config, mode: Mode, s: State, l: Local, recycled: bool)
    requires WillFlag(c, s, recycled)
    ensures WillFlag(c, Loop(c, mode, s, l).s, recycled)
    decreases Unread(s), |s.buffer|
  {
    hide Step, WillFlag;
    StepFlag(c, mode, s, l, recycled);
    match Step(c, mode, s, l)
    case Return(_, _) =>
    case Continue(s', l') =>
      if Progress(s, s') {
        LoopFlag(c, mode, s', l', recycled);
      }
  }

  // For a new reader the first header of the file decides.
  lemma FirstFlag(c: Config, data: Bytes)
    requires |data| >= HEADER_SIZE
    ensures WillFlag(c, Initial(data, map[]), IsRecyclableType(TypeOf(data[6])))
  {
    hide ReadPayload, DecodeFixed32, DecodeLength;
    var s := Initial(data, map[]);
    RefillFirst(c, s);
    var m := ReadMore(c, s).s;
    var t := TypeOf(data[6]);
    assert m.buffer[6] == data[6] && Position(m) == 0;
    if IsRecyclableType(t) {
      var s1 := m.(recycled := true);
      if |m.buffer| < RECYCLABLE_HEADER_SIZE {
        assert m.eof;
      } else if DecodeFixed32(m.buffer[7..]) == c.logNumber {
        PayloadFlag(c, s1, t, RECYCLABLE_HEADER_SIZE, DecodeLength(m.buffer[4], m.buffer[5]));
      }
    } else {
      PayloadFlag(c, m, t, HEADER_SIZE, DecodeLength(m.buffer[4], m.buffer[5]));
    }
  }

  // ---------- the loop at a damaged record ----------

  // What is reported: the rest of the block, and what was assembled of a record.
  function DamageReports(d: Damage, dropped: nat, l: Local): seq<Report> {
    [Report(dropped, ReasonOf(d))] + if l.inFragment then [Report(|l.scratch|, MiddleOfRecord)] else []
  }

  lemma DispatchDamage(c: Config, mode: Mode, l: Local, offset: nat, r: PhysicalResult, q: nat, d: Damage)
    requires r.code == if d.WrongSum? then BAD_RECORD_CHECKSUM else BAD_RECORD_LEN
    requires Synced(r.s) && q + r.drop <= At(r.s) && c.initialOffset + |l.scratch| <= q
    ensures Dispatch(c, mode, l, offset, r) ==
            if r.s.recycled && mode.TolerateCorruptedTail? then Return(End, r.s)
            else Continue(r.s.(reports := r.s.reports + Reported(c, DamageReports(d, r.drop, l))),
                          Local(false, [], l.prospective))
  {
    hide Sub64, Synced;
    var s1 := ReportDrop(c, r.s, r.drop, ReasonOf(d));
    BelowPosition(r.s, r.drop, q);
    SameSync(r.s, s1);
    BelowPosition(s1, |l.scratch|, c.initialOffset);
  }

  lemma StepDamage(c: Config, mode: Mode, s: State, l: Local, q: nat, d: Damage, recycled: bool) returns (s': State)
    requires Synced(s) && NextHeader(s, q) && q <= |Visible(s)| && c.initialOffset + |l.scratch| <= q
    requires Damaged(c, BlockRest(Visible(s), q), BlockEnd(q) <= |Visible(s)|, d) && WillFlag(c, s, recycled)
    ensures var b := BlockRest(Visible(s), q);
            && Moved(s, s'.(reports := s.reports), q + |b|) && WillFlag(c, s', recycled)
            && if recycled && mode.TolerateCorruptedTail? then
                 Loop(c, mode, s, l) == Result(End, s') && s'.reports == s.reports
               else
                 Loop(c, mode, s, l) == Loop(c, mode, s', IDLE)
                 && s'.reports == s.reports + Reported(c, DamageReports(d, |b|, l))
  {
    hide ReadPhysical, Damaged, NextHeader, Sub64, Synced, Dispatch, Loop, BlockRest, Reported, DamageReports;
    PhysicalDamage(c, s, q, d);
    PhysicalProgress(c, s);
    StepFlag(c, mode, s, l, recycled);
    var r := ReadPhysical(c, s);
    EmptyAt(r.s);
    DispatchDamage(c, mode, l, Position(s), r, q, d);
    s' := Step(c, mode, s, l).s;
    SameSync(r.s, s');
    if !(recycled && mode.TolerateCorruptedTail?) {
      LoopStep(c, mode, s, l);
      IdleAnyway(c, mode, s', Local(false, [], l.prospective));
    } else {
      LoopStep(c, mode, s, l);
    }
  }

  lemma LoopStep(c: Config, mode: Mode, s: State, l: Local)
    ensures match Step(c, mode, s, l)
            case Return(outcome, s') => Loop(c, mode, s, l) == Result(outcome, s')
            case Continue(s', l') => Progress(s, s') ==> Loop(c, mode, s, l) == Loop(c, mode, s', l')
  {
    hide Step;
  }

  lemma SameSync(s: State, s': State)
    requires Synced(s) && s' == s.(reports := s'.reports)
    ensures Synced(s') && At(s') == At(s)
  {
  }

  lemma EmptyAt(s: State)
    requires Synced(s) && s.buffer == []
    ensures At(s) == s.file.pos
  {
  }

  // Outside a record the loop does not look at the offset of the last one.
  lemma {:induction false} IdleAnyway(c: Config, mode: Mode, s: State, l: Local)
    requires !l.inFragment && l.scratch == []
    ensures Loop(c, mode, s, l) == Loop(c, mode, s, IDLE)
    decreases Unread(s), |s.buffer|
  {
    hide Step;
    StepIdle(c, mode, s, l);
    match Step(c, mode, s, l)
    case Return(_, _) =>
    case Continue(s', l') =>
      if Progress(s, s') && !l'.inFragment {
        IdleAnyway(c, mode, s', l');
        IdleAnyway(c, mode, s', Step(c, mode, s, IDLE).l);
      }
  }

  lemma StepIdle(c: Config, mode: Mode, s: State, l: Local)
    requires !l.inFragment && l.scratch == []
    ensures var a, b := Step(c, mode, s, l), Step(c, mode, s, IDLE);
            && a.Return? == b.Return? && a.s == b.s && (a.Return? ==> a.outcome == b.outcome)
            && (a.Continue? ==> if a.l.inFragment then a.l == b.l
                                else !b.l.inFragment && a.l.scratch == b.l.scratch == [])
  {
    hide ReadPhysical, ReportDrop;
  }

  // ---------- up to a block boundary inside a record ----------

  // How many payload bytes there are in the first n bytes of fragments that fill their blocks.
  function PayloadBefore(f: Format, q: nat, n: nat): nat
    requires HeaderFits(f, q)
    decreases n
  {
    var block := BlockEnd(q) - q;
    if n < block then 0 else Available(f, q) + PayloadBefore(f, BlockEnd(q), n - block)
  }

  // The reader has come to q inside a record, or stands before it, with what it knows of the record.
  ghost predicate StandsAt(c: Config, s: State, s1: State, l1: Local, q: nat, begin: bool) {
    && Synced(s1) && NextHeader(s1, q) && Visible(s1) == Visible(s) && s1.reports == s.reports
    && s1.lastRecordOffset == s.lastRecordOffset && s1.file.data == s.file.data
    && InRecord(l1, begin) && c.initialOffset + |l1.scratch| <= q
  }

  // What is known of the log's kind in s is known in s1.
  ghost predicate KeepsFlag(c: Config, s: State, s1: State) {
    forall recycled :: WillFlag(c, s, recycled) ==> WillFlag(c, s1, recycled)
  }

  lemma StepKeepsFlag(c: Config, mode: Mode, s: State, l: Local)
    ensures KeepsFlag(c, s, Step(c, mode, s, l).s)
  {
    hide Step, WillFlag;
    forall recycled | WillFlag(c, s, recycled)
      ensures WillFlag(c, Step(c, mode, s, l).s, recycled)
    {
      StepFlag(c, mode, s, l, recycled);
    }
  }

  lemma {:induction false} UpTo(
    c: Config, mode: Mode, f: Format, s: State, l: Local, q: nat, left: Bytes, begin: bool, n: nat)
    returns (s1: State, l1: Local)
    requires Matches(c, f) && HeaderFits(f, q) && StandsAt(c, s, s, l, q, begin)
    requires q + n <= |Visible(s)| && (n == 0 || (n < |Fragments(f, q, left, begin)| && (q + n) % BLOCK_SIZE == 0))
    requires Visible(s)[q..q + n] == Fragments(f, q, left, begin)[..n]
    ensures Loop(c, mode, s, l) == Loop(c, mode, s1, l1)
    ensures StandsAt(c, s, s1, l1, q + n, begin && n == 0) && KeepsFlag(c, s, s1) && Loaded(s1)
    ensures if n == 0 then s1 == s && l1 == l else At(s1) == q + n
    ensures |l1.scratch| == |l.scratch| + PayloadBefore(f, q, n)
    decreases n
  {
    hide Physical, Step, Fragments, Synced, Moved, NextHeader, Visible, WillFlag, Loop;
    SyncedIsLoaded(s);
    s1, l1 := s, l;
    if n > 0 {
      var m, t, x, rest := FragmentsSplit(f, q, left, begin);
      ToBoundary(q, n, |x|);
      FirstPart(Visible(s), q, n, x, rest);
      FragmentStepWhole(c, mode, f, s, l, q, t, left[..m]);
      StepKeepsFlag(c, mode, s, l);
      var r := Step(c, mode, s, l);
      LoopStep(c, mode, s, l);
      MovedNext(s, r.s, q + |x|);
      MovedSame(s, r.s, q + |x|);
      MovedAt(s, r.s, q + |x|);
      s1, l1 := UpTo(c, mode, f, r.s, r.l, q + |x|, left[m..], false, n - |x|);
    }
  }

  lemma MovedAt(s: State, s': State, p: nat)
    requires Moved(s, s', p)
    ensures Loaded(s') && At(s') == p
  {
  }

  lemma MovedSame(s: State, s': State, p: nat)
    requires Moved(s, s', p)
    ensures s'.reports == s.reports && s'.lastRecordOffset == s.lastRecordOffset && s'.file.data == s.file.data
  {
  }

  // A block boundary past q is not before the end of q's block.
  lemma ToBoundary(q: nat, n: nat, m: nat)
    requires n > 0 && (q + n) % BLOCK_SIZE == 0 && q % BLOCK_SIZE + m <= BLOCK_SIZE
    ensures q + m <= BlockEnd(q) <= q + n
  {
  }

  lemma FirstPart(v: Bytes, q: nat, n: nat, x: Bytes, rest: Bytes)
    requires q + n <= |v| && |x| <= n <= |x + rest| && v[q..q + n] == (x + rest)[..n]
    ensures v[q..q + |x|] == x && v[q + |x|..q + n] == rest[..n - |x|]
  {
    assert v[q..q + n][..|x|] == v[q..q + |x|];
    assert v[q..q + n][|x|..] == v[q + |x|..q + n];
    assert (x + rest)[..n][|x|..] == rest[..n - |x|];
  }

  // ---------- a damaged record ----------

  // The reader passes the trailer before a record.
  lemma ToHeader(c: Config, mode: Mode, f: Format, s: State, p: nat) returns (s0: State)
    requires Synced(s) && p == At(s) >= c.initialOffset
    requires var k := TrailerSize(f, p); p + k <= |Visible(s)| && Visible(s)[p..p + k] == ZeroBytes(k)
    ensures Loop(c, mode, s, IDLE) == Loop(c, mode, s0, IDLE)
    ensures StandsAt(c, s, s0, IDLE, p + TrailerSize(f, p), true) && KeepsFlag(c, s, s0)
  {
    hide Step, Synced, ReadPhysical, Loop, WillFlag;
    var k := TrailerSize(f, p);
    s0 := s;
    if k > 0 {
      AtTrailer(f, s, p);
      if k >= HEADER_SIZE {
        assert s.buffer == ZeroBytes(k);
        ZerosStep(c, mode, s);
        StepKeepsFlag(c, mode, s, IDLE);
        s0 := Step(c, mode, s, IDLE).s;
      }
    }
  }

  // A physical record of some log record starts n bytes after p: it is the first one, or it starts a
  // block.
  predicate PhysicalAt(f: Format, p: nat, n: nat) {
    n >= TrailerSize(f, p) && (n == TrailerSize(f, p) || (p + n) % BLOCK_SIZE == 0)
  }

  // What is reported of the record itself, if some of it had been assembled.
  function Assembled(f: Format, p: nat, n: nat, reason: Reason): seq<Report>
    requires PhysicalAt(f, p, n)
  {
    var k := TrailerSize(f, p);
    if n > k then [Report(PayloadBefore(f, p + k, n - k), reason)] else []
  }

  // The bytes of a record are as they were written up to the damaged physical record.
  ghost predicate DamagedAt(c: Config, f: Format, v: Bytes, p: nat, record: Bytes, n: nat, d: Damage) {
    && WholeUpTo(f, v, p, record, n)
    && Damaged(c, BlockRest(v, p + n), BlockEnd(p + n) <= |v|, d)
  }

  // The bytes of a record are as they were written up to some physical record.
  ghost predicate WholeUpTo(f: Format, v: Bytes, p: nat, record: Bytes, n: nat) {
    && PhysicalAt(f, p, n) && n < |RecordBytes(f, p, record)|
    && p + n <= |v| && v[p..p + n] == RecordBytes(f, p, record)[..n]
  }

  // The reader comes to that place with what it has assembled of the record.
  lemma ComesTo(c: Config, mode: Mode, f: Format, s: State, record: Bytes, n: nat) returns (s1: State, l1: Local)
    requires Synced(s) && Matches(c, f) && At(s) >= c.initialOffset && WholeUpTo(f, Visible(s), At(s), record, n)
    ensures Loop(c, mode, s, IDLE) == Loop(c, mode, s1, l1)
    ensures var begin := n == TrailerSize(f, At(s));
            && StandsAt(c, s, s1, l1, At(s) + n, begin) && KeepsFlag(c, s, s1)
            && (if begin then l1 == IDLE else At(s1) == At(s) + n)
    ensures forall reason :: Assembled(f, At(s), n, reason)
                             == if l1.inFragment then [Report(|l1.scratch|, reason)] else []
  {
    hide Fragments, Synced, Visible, WillFlag, Loop, NextHeader, TrailerSize;
    SyncedIsLoaded(s);
    var p, v := At(s), Visible(s);
    var k := TrailerSize(f, p);
    TrailerPart(f, v, p, record, n);
    var s0 := ToHeader(c, mode, f, s, p);
    StandsAgain(c, s, s0, IDLE, p + k, true);
    s1, l1 := UpTo(c, mode, f, s0, IDLE, p + k, record, true, n - k);
    NoPayload(f, p + k, n - k);
  }

  // Where reading goes on: after the block, with the damage reported; or nowhere, unreported, if the log
  // is recyclable and its tail may be corrupt.
  lemma DamagedRecord(
    c: Config, mode: Mode, f: Format, s: State, record: Bytes, n: nat, d: Damage, recycled: bool) returns (s': State)
    requires Synced(s) && Matches(c, f) && At(s) >= c.initialOffset && WillFlag(c, s, recycled)
    requires DamagedAt(c, f, Visible(s), At(s), record, n, d)
    ensures var b := BlockRest(Visible(s), At(s) + n);
            && Moved(s, s'.(reports := s.reports), At(s) + n + |b|)
            && if recycled && mode.TolerateCorruptedTail? then
                 Loop(c, mode, s, IDLE) == Result(End, s') && s'.reports == s.reports
               else
                 Loop(c, mode, s, IDLE) == Loop(c, mode, s', IDLE)
                 && s'.reports == s.reports
                    + Reported(c, [Report(|b|, ReasonOf(d))] + Assembled(f, At(s), n, MiddleOfRecord))
  {
    hide Fragments, Synced, Visible, WillFlag, Loop, Damaged, NextHeader, BlockRest, Reported, Assembled, Moved,
         RecordBytes;
    SyncedIsLoaded(s);
    var s1, l1 := ComesTo(c, mode, f, s, record, n);
    s' := StepDamage(c, mode, s1, l1, At(s) + n, d, recycled);
    MovedFrom(s, s1, s', At(s) + n + |BlockRest(Visible(s), At(s) + n)|);
  }

  lemma NoPayload(f: Format, q: nat, n: nat)
    requires HeaderFits(f, q)
    ensures n == 0 ==> PayloadBefore(f, q, n) == 0
  {
  }

  lemma StandsAgain(c: Config, s: State, s0: State, l: Local, q: nat, begin: bool)
    requires StandsAt(c, s, s0, l, q, begin)
    ensures StandsAt(c, s0, s0, l, q, begin)
  {
    hide NextHeader;
  }

  lemma MovedFrom(s: State, s1: State, s': State, e: nat)
    requires Visible(s1) == Visible(s) && s1.reports == s.reports && s1.lastRecordOffset == s.lastRecordOffset
    requires s1.file.data == s.file.data
    requires Moved(s1, s'.(reports := s1.reports), e)
    ensures Moved(s, s'.(reports := s.reports), e)
  {
  }

  lemma TrailerPart(f: Format, v: Bytes, p: nat, record: Bytes, n: nat)
    requires PhysicalAt(f, p, n) && n < |RecordBytes(f, p, record)|
    requires p + n <= |v| && v[p..p + n] == RecordBytes(f, p, record)[..n]
    ensures var k := TrailerSize(f, p);
            && HeaderFits(f, p + k) && p + k <= |v| && v[p..p + k] == ZeroBytes(k)
            && n - k < |Fragments(f, p + k, record, true)|
            && v[p + k..p + n] == Fragments(f, p + k, record, true)[..n - k]
  {
    hide Fragments;
    var k := TrailerSize(f, p);
    FirstPart(v, p, n, ZeroBytes(k), Fragments(f, p + k, record, true));
  }

  // ---------- what is read then ----------

  // From offset e on the file holds the rest of a record that began before, if there is one, and then
  // the records `later`.
  ghost predicate Continues(f: Format, v: Bytes, e: nat, orphan: bool, left: Bytes, later: seq<Bytes>) {
    && e <= |v| && (orphan ==> HeaderFits(f, e))
    && var x := if orphan then Fragments(f, e, left, false) else [];
       v[e..] == x + LogBytes(f, e + |x|, later)
  }

  function OrphanReports(f: Format, e: nat, orphan: bool, left: Bytes): seq<Report>
    requires orphan ==> HeaderFits(f, e)
  {
    if orphan then Orphans(f, e, left) else []
  }

  lemma ReadsLater(
    c: Config, mode: Mode, f: Format, s: State, orphan: bool, left: Bytes, later: seq<Bytes>)
    requires Synced(s) && Matches(c, f) && At(s) >= c.initialOffset && s.lastRecordOffset >= c.initialOffset
    requires Continues(f, Visible(s), At(s), orphan, left, later)
    ensures var a := ReadAll(c, mode, s);
            && a.records == later && a.outcome.End?
            && a.s.reports == s.reports + Reported(c, OrphanReports(f, At(s), orphan, left))
  {
    hide LogBytes, Fragments, Synced, Visible, ReadAll, Orphans, Skipped;
    SyncedIsLoaded(s);
    var e, v := At(s), Visible(s);
    if orphan {
      var x := Fragments(f, e, left, false);
      var tail := LogBytes(f, e + |x|, later);
      NextHere(s, e);
      assert x <= v[e..];
      var s' := OrphanFragments(c, mode, f, s, e, left);
      SkippedNext(c, mode, s, s', e + |x|);
      SkippedReads(c, mode, s, s', e + |x|);
      assert v[e + |x|..] == v[e..][|x|..] == tail;
      AllLater(c, mode, f, s', later);
      LaterEnds(c, mode, f, s', later);
    } else {
      assert [] + LogBytes(f, e + 0, later) == LogBytes(f, e, later);
      AllLater(c, mode, f, s, later);
      LaterEnds(c, mode, f, s, later);
      assert s.reports + [] == s.reports;
    }
  }

  lemma LaterEnds(c: Config, mode: Mode, f: Format, s: State, later: seq<Bytes>)
    requires Synced(s) && Matches(c, f) && At(s) >= c.initialOffset && s.lastRecordOffset >= c.initialOffset
    requires At(s) <= |Visible(s)| && Visible(s)[At(s)..] == LogBytes(f, At(s), later)
    ensures ReadAll(c, mode, s).outcome.End?
  {
    hide LogBytes, Synced, Visible, ReadAll, Complete, Silent, Reports, Ends;
    SyncedIsLoaded(s);
    var p := At(s);
    var log := LogBytes(f, p, later);
    assert log[..|log|] == log;
    ReadAllVisible(c, mode, f, s, p, later, |log|);
    EndsIsEnd(s.(lastRecordOffset := ReadAll(c, mode, s).s.lastRecordOffset), ReadAll(c, mode, s));
  }

  // After a damaged physical record exactly the records that begin after its block are returned, and one
  // report of the dropped bytes is made, with those of the record that was being assembled and of the
  // fragments that lost their start. Only for a recyclable log whose tail may be corrupt it is the end.
  lemma DamageSkipsBlock(
    c: Config, mode: Mode, f: Format, s: State, p: nat, record: Bytes, n: nat, d: Damage, recycled: bool, e: nat,
    orphan: bool, left: Bytes, later: seq<Bytes>)
    requires Synced(s) && Matches(c, f) && p == At(s) >= c.initialOffset && s.lastRecordOffset >= c.initialOffset
    requires PhysicalAt(f, p, n) && p + n <= |Visible(s)| && e == p + n + |BlockRest(Visible(s), p + n)|
    requires WillFlag(c, s, recycled) && DamagedAt(c, f, Visible(s), p, record, n, d)
    requires (orphan ==> HeaderFits(f, e)) && Continues(f, Visible(s), e, orphan, left, later)
    ensures var a := ReadAll(c, mode, s);
            && a.outcome.End?
            && if recycled && mode.TolerateCorruptedTail? then a.records == [] && a.s.reports == s.reports
               else
                 && a.records == later
                 && a.s.reports == s.reports
                    + Reported(c, [Report(e - (p + n), ReasonOf(d))] + Assembled(f, p, n, MiddleOfRecord)
                                  + OrphanReports(f, e, orphan, left))
  {
    hide LogBytes, Fragments, Synced, Visible, ReadAll, Loop, Damaged, BlockRest, WillFlag, Assembled, OrphanReports,
         DamagedAt, Continues, PhysicalAt;
    SyncedIsLoaded(s);
    var s' := DamagedRecord(c, mode, f, s, record, n, d, recycled);
    MovedReports(s, s', e);
    if recycled && mode.TolerateCorruptedTail? {
      Read1(c, mode, s);
      ReadAllNone(c, mode, s);
    } else {
      Read1(c, mode, s);
      Read1(c, mode, s');
      ReadAllSame(c, mode, s, s');
      ReadsLater(c, mode, f, s', orphan, left, later);
    }
  }

  lemma MovedReports(s: State, s': State, p: nat)
    requires Moved(s, s'.(reports := s.reports), p)
    ensures Synced(s') && At(s') == p && Visible(s') == Visible(s) && s'.lastRecordOffset == s.lastRecordOffset
  {
  }

  lemma ReadAllNone(c: Config, mode: Mode, s: State)
    requires ReadRecord(c, mode, s).outcome.End?
    ensures var r := ReadRecord(c, mode, s); ReadAll(c, mode, s) == ReadAllResult([], r.outcome, r.s)
  {
    hide ReadRecord;
  }

  lemma ReadAllSame(c: Config, mode: Mode, s: State, s': State)
    requires ReadRecord(c, mode, s) == ReadRecord(c, mode, s')
    ensures ReadAll(c, mode, s) == ReadAll(c, mode, s')
  {
    hide ReadRecord;
  }

  // ---------- a whole log ----------

  // Record j is the first one that begins at or after the offset e; the file holds there what is left of
  // a record before it, or that record itself.
  lemma FromOffset(f: Format, records: seq<Bytes>, e: nat) returns (orphan: bool, left: Bytes, j: nat)
    requires e == |LogBytes(f, 0, records)| || (e % BLOCK_SIZE == 0 && e < |LogBytes(f, 0, records)|)
    ensures j == Before(f, 0, records, e)
    ensures Continues(f, LogBytes(f, 0, records), e, orphan, left, records[j..])
    ensures orphan ==> j > 0 && HeaderOffset(f, 0, records, j - 1) < e < EndOf(f, records, j)
  {
    hide LogBytes, Fragments, Boundary, TrailerSize, Before, HeaderOffset;
    var log := LogBytes(f, 0, records);
    if e == |log| {
      orphan, left, j := false, [], |records|;
      AllBefore(f, records);
      assert records[j..] == [] && log[e..] == [] + LogBytes(f, e, []) by { EmptyLog(f, e); }
    } else {
      var k, begin;
      k, left, begin := LogAtBlock(f, 0, records, e);
      orphan := !begin;
      j := if begin then k else k + 1;
      ShapeBefore(f, records, e, k, left, begin);
      ShapeContinues(f, records, e, k, left, begin);
    }
  }

  lemma EmptyLog(f: Format, p: nat)
    ensures LogBytes(f, p, []) == []
  {
  }

  lemma AllBefore(f: Format, records: seq<Bytes>)
    ensures Before(f, 0, records, |LogBytes(f, 0, records)|) == |records|
  {
    hide LogBytes, Before, HeaderOffset;
    var n := |records|;
    if n > 0 {
      HeaderBeforeEnd(f, records, n - 1);
      assert records[..n] == records;
      BeforeSkips(f, 0, records, |LogBytes(f, 0, records)|, n);
      assert records[n..] == [];
    }
    NoneBefore(f, Boundary(f, 0, records, n), |LogBytes(f, 0, records)|);
  }

  lemma NoneBefore(f: Format, p: nat, e: nat)
    ensures Before(f, p, [], e) == 0
  {
  }

  lemma HeaderBeforeEnd(f: Format, records: seq<Bytes>, j: nat)
    requires j < |records|
    ensures HeaderOffset(f, 0, records, j) < EndOf(f, records, j + 1)
  {
    hide LogBytes, RecordBytes;
    RecordInLog(f, records, j);
    HeaderInRecord(f, EndOf(f, records, j), records[j]);
  }

  lemma ShapeBefore(f: Format, records: seq<Bytes>, e: nat, k: nat, left: Bytes, begin: bool)
    requires Shape(f, 0, records, e, k, left, begin)
    ensures Before(f, 0, records, e) == if begin then k else k + 1
    ensures !begin ==> HeaderOffset(f, 0, records, k) < e < EndOf(f, records, k + 1)
  {
    hide LogBytes, Fragments, TrailerSize, Before;
    if begin {
      if k > 0 {
        HeadersIncrease(f, 0, records, k);
      }
      BeforeIsExact(f, 0, records, e, k);
      if k > 0 {
        BeforeIsExact(f, 0, records, e, k - 1);
      }
    } else {
      BeforeIsExact(f, 0, records, e, k);
      if k + 1 < |records| {
        BeforeIsExact(f, 0, records, e, k + 1);
      }
    }
  }

  lemma ShapeContinues(f: Format, records: seq<Bytes>, e: nat, k: nat, left: Bytes, begin: bool)
    requires Shape(f, 0, records, e, k, left, begin)
    ensures Continues(f, LogBytes(f, 0, records), e, !begin, left, records[if begin then k else k + 1..])
  {
    hide Fragments, Boundary, HeaderOffset;
    if begin {
      var x := RecordBytes(f, e, left);
      assert x == ZeroBytes(0) + Fragments(f, e, left, true);
      assert records[k..] == [records[k]] + records[k + 1..];
      assert LogBytes(f, e, records[k..]) == x + LogBytes(f, e + |x|, records[k + 1..]);
    }
  }

  // A log of which one physical record is damaged and with it, perhaps, the rest of its block.
  ghost predicate DamagedLog(
    c: Config, f: Format, records: seq<Bytes>, data: Bytes, k: nat, n: nat, d: Damage)
    requires k < |records|
  {
    var log, p := LogBytes(f, 0, records), EndOf(f, records, k);
    var q := p + n;
    var e := Min(BlockEnd(q), |log|);
    && PhysicalAt(f, p, n) && n < |RecordBytes(f, p, records[k])|
    && |data| == |log| && q <= e && data[..q] == log[..q] && data[e..] == log[e..]
    && Damaged(c, data[q..e], BlockEnd(q) <= |log|, d)
  }

  // Reading such a log returns the records before the damaged one and those that begin after its block.
  // The bytes of the block from the damage on are reported once, with what had been assembled of the
  // damaged record and, one by one, the fragments that continue a record that began in the block. If
  // the log is recyclable and its tail may be corrupt, reading ends at the damage with no report.
  lemma CorruptLog(c: Config, mode: Mode, f: Format, records: seq<Bytes>, data: Bytes, k: nat, n: nat, d: Damage)
    returns (orphans: seq<Report>)
    requires c.initialOffset == 0 && Matches(c, f) && k < |records| && DamagedLog(c, f, records, data, k, n, d)
    ensures |data| >= HEADER_SIZE
    ensures var p := EndOf(f, records, k);
            var e := Min(BlockEnd(p + n), |data|);
            var m := Before(f, 0, records, e);
            var a := ReadAll(c, mode, Initial(data, map[]));
            && a.outcome.End?
            && if IsRecyclableType(TypeOf(data[6])) && mode.TolerateCorruptedTail? then
                 a.records == records[..k] && a.s.reports == []
               else
                 && a.records == records[..k] + records[m..]
                 && a.s.reports == Reported(c, [Report(e - (p + n), ReasonOf(d))]
                                               + Assembled(f, p, n, MiddleOfRecord) + orphans)
    ensures forall i :: 0 <= i < |orphans| ==> orphans[i].reason == MissingStart
  {
    hide LogBytes, Synced, Visible, ReadAll, Loop, Damaged, WillFlag, Assembled, Continues, RecordBytes, EndOf, Before,
         Reported, DamagedLog, DamagedAt, BlockRest, Moved, PhysicalAt;
    var log, p := LogBytes(f, 0, records), EndOf(f, records, k);
    var e := Min(BlockEnd(p + n), |log|);
    DamagedIsLong(c, f, records, data, k, n, d);
    var s := Initial(data, map[]);
    var recycled := IsRecyclableType(TypeOf(data[6]));
    InitialSynced(data);
    FirstFlag(c, data);
    DamageInPlace(c, f, records, data, k, n, d);
    var s1 := ReadsBefore(c, mode, f, s, records, k, recycled);
    EndAligned(p + n, |log|);
    var orphan, left, m := FromOffset(f, records, e);
    ContinuesFits(f, log, e, orphan, left, records[m..]);
    SameTail(f, log, data, e, orphan, left, records[m..]);
    orphans := OrphanReports(f, e, orphan, left);
    DamageSkipsBlock(c, mode, f, s1, p, records[k], n, d, recycled, e, orphan, left, records[m..]);
  }

  // Records that are whole are returned first, with no report.
  lemma {:induction false} ReadsWhole(
    c: Config, mode: Mode, f: Format, s: State, records: seq<Bytes>, recycled: bool) returns (s1: State)
    requires Synced(s) && Matches(c, f) && At(s) >= c.initialOffset && s.lastRecordOffset >= c.initialOffset
    requires WillFlag(c, s, recycled)
    requires At(s) <= |Visible(s)| && LogBytes(f, At(s), records) <= Visible(s)[At(s)..]
    ensures Synced(s1) && At(s1) == At(s) + |LogBytes(f, At(s), records)| && Visible(s1) == Visible(s)
    ensures s1.reports == s.reports && s1.lastRecordOffset >= c.initialOffset && WillFlag(c, s1, recycled)
    ensures var a, b := ReadAll(c, mode, s), ReadAll(c, mode, s1);
            a == ReadAllResult(records + b.records, b.outcome, b.s)
    decreases |records|
  {
    hide RecordBytes, Synced, Visible, ReadAll, Loop, WillFlag, TrailerSize, ReturnsRecord;
    SyncedIsLoaded(s);
    s1 := s;
    var p, v := At(s), Visible(s);
    if records == [] {
      assert [] + ReadAll(c, mode, s).records == ReadAll(c, mode, s).records;
    } else {
      var x := RecordBytes(f, p, records[0]);
      var rest := LogBytes(f, p + |x|, records[1..]);
      PrefixSplit(v, p, x, rest);
      Prefixed(v, p, x, rest);
      RecordWhole(c, mode, f, s, p, records[0]);
      Read1(c, mode, s);
      LoopFlag(c, mode, s, IDLE, recycled);
      var r := Loop(c, mode, s, IDLE);
      AfterRecord(s, r, records[0], p + |x|, ReportedOffset(f, p));
      ReadAllOne(c, mode, s);
      s1 := ReadsWhole(c, mode, f, r.s, records[1..], recycled);
      assert records == [records[0]] + records[1..];
    }
  }

  lemma Prefixed(v: Bytes, p: nat, x: Bytes, rest: Bytes)
    requires p <= |v| && x + rest <= v[p..]
    ensures x <= v[p..]
  {
  }

  lemma ReadAllOne(c: Config, mode: Mode, s: State)
    ensures var r := ReadRecord(c, mode, s);
            r.outcome.Record? ==>
              var b := ReadAll(c, mode, r.s);
              ReadAll(c, mode, s) == ReadAllResult([r.outcome.bytes] + b.records, b.outcome, b.s)
  {
    hide ReadRecord;
  }

  lemma ReadsBefore(
    c: Config, mode: Mode, f: Format, s: State, records: seq<Bytes>, k: nat, recycled: bool) returns (s1: State)
    requires Synced(s) && Matches(c, f) && At(s) == 0 && c.initialOffset == 0 && WillFlag(c, s, recycled)
    requires k <= |records| && EndOf(f, records, k) <= |Visible(s)| && EndOf(f, records, k) <= |LogBytes(f, 0, records)|
    requires Visible(s)[..EndOf(f, records, k)] == LogBytes(f, 0, records)[..EndOf(f, records, k)]
    ensures Synced(s1) && At(s1) == EndOf(f, records, k) && Visible(s1) == Visible(s)
    ensures s1.reports == s.reports && s1.lastRecordOffset >= c.initialOffset && WillFlag(c, s1, recycled)
    ensures var a, b := ReadAll(c, mode, s), ReadAll(c, mode, s1);
            a == ReadAllResult(records[..k] + b.records, b.outcome, b.s)
  {
    hide LogBytes, Synced, Visible, ReadAll, WillFlag;
    assert records == records[..k] + records[k..];
    LogBytesAppend(f, 0, records[..k], records[k..]);
    assert Visible(s)[0..] == Visible(s);
    s1 := ReadsWhole(c, mode, f, s, records[..k], recycled);
  }

  lemma EndAligned(q: nat, size: nat)
    ensures var e := Min(BlockEnd(q), size); e == size || (e % BLOCK_SIZE == 0 && e < size)
  {
  }

  lemma ContinuesFits(f: Format, v: Bytes, e: nat, orphan: bool, left: Bytes, later: seq<Bytes>)
    requires Continues(f, v, e, orphan, left, later)
    ensures orphan ==> HeaderFits(f, e)
  {
    hide Fragments, LogBytes;
  }

  lemma SameTail(f: Format, log: Bytes, data: Bytes, e: nat, orphan: bool, left: Bytes, later: seq<Bytes>)
    requires Continues(f, log, e, orphan, left, later) && |data| == |log| && data[e..] == log[e..]
    ensures Continues(f, data, e, orphan, left, later) && e <= |data|
  {
    hide Fragments, LogBytes;
  }

  lemma DamagedIsLong(c: Config, f: Format, records: seq<Bytes>, data: Bytes, k: nat, n: nat, d: Damage)
    requires k < |records| && DamagedLog(c, f, records, data, k, n, d)
    ensures |data| >= HEADER_SIZE
  {
    hide LogBytes, RecordBytes, EndOf;
    var p := EndOf(f, records, k);
    DamageLong(c, data[p + n..Min(BlockEnd(p + n), |data|)], BlockEnd(p + n) <= |data|, d);
  }

  lemma DamageInPlace(c: Config, f: Format, records: seq<Bytes>, data: Bytes, k: nat, n: nat, d: Damage)
    requires k < |records| && DamagedLog(c, f, records, data, k, n, d)
    ensures var p := EndOf(f, records, k);
            && DamagedAt(c, f, data, p, records[k], n, d)
            && PhysicalAt(f, p, n) && p + n <= |data| == |LogBytes(f, 0, records)|
            && |BlockRest(data, p + n)| == Min(BlockEnd(p + n), |data|) - (p + n)
            && data[..p] == LogBytes(f, 0, records)[..p]
            && var e := Min(BlockEnd(p + n), |data|); data[e..] == LogBytes(f, 0, records)[e..]
  {
    hide LogBytes, RecordBytes, EndOf, Damaged;
    var log, p := LogBytes(f, 0, records), EndOf(f, records, k);
    var x := RecordBytes(f, p, records[k]);
    RecordInLog(f, records, k);
    assert data[p..p + n] == data[..p + n][p..] == log[..p + n][p..] == log[p..p + n];
    TakeOf(log, p, p + |x|, n);
    assert data[..p] == data[..p + n][..p] == log[..p + n][..p] == log[..p];
  }
}
