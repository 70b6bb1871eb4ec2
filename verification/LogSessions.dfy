/**
 A checksumming reader over its whole life, on arbitrary bytes (rutil/log_reader.cc:44-341): calls,
 resumptions and growth of the file in any order, with reads that fail and skips that are repeated.
 Every record returned is one that the file holds.
 */
module LogSessions {
  import opened Coding
  import opened LogFormat
  import opened LogReader
  import opened LogSoundness
  import Crc = Crc32c

  // ---------- states between calls ----------

  // The buffer never outgrows its block, and UnmarkEof's subtraction of it from the offset of the
  // end of the file does not go below zero.
  predicate Fits(s: State) {
    && |s.buffer| <= BLOCK_SIZE
    && (s.eofOffset != 0 ==> |s.buffer| <= s.eofOffset)
    && (!s.eof && !s.readError ==> s.eofOffset == 0)
  }

  // The buffer is a stretch of the file from the floor on. It ends at the file position, unless a
  // read has failed after moving on.
  ghost predicate Held(floor: nat, s: State) {
    exists p: nat :: HeldTo(floor, s, p)
  }

  predicate HeldTo(floor: nat, s: State, p: nat) {
    && p <= s.file.pos && (p == s.file.pos || s.readError)
    && Loaded(Rewound(s, p)) && At(Rewound(s, p)) >= floor
  }

  // A reader that has returned nothing from its initial offset on skips to the initial block again
  // at the next call; what its buffer holds then is of no account.
  ghost predicate Sane(c: Config, floor: nat, s: State) {
    && Fits(s) && s.file.pos >= floor
    && (Held(floor, s) || (s.lastRecordOffset < c.initialOffset && BlockStart(c) > 0))
  }

  lemma LoadedIsHeld(floor: nat, s: State)
    requires Loaded(s) && At(s) >= floor
    ensures Held(floor, s) && s.file.pos >= floor
  {
    assert Rewound(s, s.file.pos) == s;
    assert HeldTo(floor, s, s.file.pos);
  }

  lemma {:induction false} PhysicalFits(c: Config, s: State)
    requires Fits(s)
    ensures Fits(ReadPhysical(c, s).s) && ReadPhysical(c, s).s.lastRecordOffset == s.lastRecordOffset
    decreases Unread(s)
  {
    hide ReadPayload, ReadMore;
    MoreFits(c, s);
    if |s.buffer| < HEADER_SIZE {
      if ReadMore(c, s).ok {
        PhysicalFits(c, ReadMore(c, s).s);
      }
    } else {
      var t, length := TypeOf(s.buffer[6]), DecodeLength(s.buffer[4], s.buffer[5]);
      var s1 := if IsRecyclableType(t) && Position(s) == 0 then s.(recycled := true) else s;
      MoreFits(c, s1);
      if IsRecyclableType(t) && |s.buffer| < RECYCLABLE_HEADER_SIZE {
        if ReadMore(c, s1).ok {
          PhysicalFits(c, ReadMore(c, s1).s);
        }
      } else {
        PayloadFits(c, s1, t, if IsRecyclableType(t) then RECYCLABLE_HEADER_SIZE else HEADER_SIZE, length);
      }
    }
  }

  lemma MoreFits(c: Config, s: State)
    requires Fits(s)
    ensures Fits(ReadMore(c, s).s) && ReadMore(c, s).s.lastRecordOffset == s.lastRecordOffset
  {
  }

  lemma PayloadFits(c: Config, s: State, t: nat, headerSize: nat, length: nat)
    requires Fits(s) && HEADER_SIZE <= headerSize <= |s.buffer|
    ensures var r := ReadPayload(c, s, t, headerSize, length).s;
            Fits(r) && r.lastRecordOffset == s.lastRecordOffset
  {
    hide Crc.Value, Crc.Unmask, DecodeFixed32, Sub64;
  }

  lemma StepFits(c: Config, mode: Mode, s: State, l: Local)
    requires Fits(s)
    ensures var r := Step(c, mode, s, l);
            && Fits(r.s)
            && ((r.Return? && r.outcome.Record?) || r.s.lastRecordOffset == s.lastRecordOffset)
  {
    hide ReadPhysical, Dispatch;
    PhysicalFits(c, s);
  }

  lemma {:induction false} LoopFits(c: Config, mode: Mode, s: State, l: Local)
    requires Fits(s)
    ensures var r := Loop(c, mode, s, l);
            Fits(r.s) && (r.outcome.Record? || r.s.lastRecordOffset == s.lastRecordOffset)
    decreases Unread(s), |s.buffer|
  {
    hide Step, Fits;
    StepFits(c, mode, s, l);
    match Step(c, mode, s, l)
    case Return(_, _) =>
    case Continue(s', l') =>
      if Progress(s, s') {
        LoopFits(c, mode, s', l');
      }
  }

  // ---------- after a failed read ----------

  function OnFile(s: State, file: File): State {
    s.(file := file)
  }

  // A reader with a read error does not look at its file any more.
  lemma PhysicalNoFile(c: Config, s: State, file: File)
    requires s.readError
    ensures var a, b := ReadPhysical(c, s), ReadPhysical(c, OnFile(s, file));
            b == a.(s := OnFile(a.s, file)) && a.s.readError && a.s.file == s.file
  {
    hide ReadPayload, DecodeFixed32, DecodeLength, Sub64;
    if |s.buffer| >= HEADER_SIZE {
      var t, length := TypeOf(s.buffer[6]), DecodeLength(s.buffer[4], s.buffer[5]);
      var s1 := if IsRecyclableType(t) && Position(s) == 0 then s.(recycled := true) else s;
      var headerSize := if IsRecyclableType(t) then RECYCLABLE_HEADER_SIZE else HEADER_SIZE;
      if |s.buffer| >= headerSize {
        PayloadNoFile(c, s1, t, headerSize, length, file);
      }
    }
  }

  lemma PayloadNoFile(c: Config, s: State, t: nat, headerSize: nat, length: nat, file: File)
    requires HEADER_SIZE <= headerSize <= |s.buffer|
    ensures var a, b := ReadPayload(c, s, t, headerSize, length),
            ReadPayload(c, OnFile(s, file), t, headerSize, length);
            b == a.(s := OnFile(a.s, file)) && a.s.readError == s.readError && a.s.file == s.file
  {
    hide Crc.Value, Crc.Unmask, DecodeFixed32, Sub64;
  }

  // Reports do not depend on the file either.
  lemma ReportNoFile(c: Config, s: State, bytes: nat, reason: Reason, file: File)
    ensures var a := ReportDrop(c, s, bytes, reason);
            ReportDrop(c, OnFile(s, file), bytes, reason) == OnFile(a, file) && a.file == s.file
              && a.readError == s.readError
  {
    hide Sub64;
  }

  lemma HelpersNoFile(c: Config, mode: Mode, s: State, l: Local, file: File)
    ensures Unfinished(c, OnFile(s, file), l) == OnFile(Unfinished(c, s, l), file)
    ensures Trailing(c, mode, OnFile(s, file), l) == OnFile(Trailing(c, mode, s, l), file)
    ensures Interrupted(c, OnFile(s, file), l) == OnFile(Interrupted(c, s, l), file)
    ensures SameSource(Unfinished(c, s, l), s) && SameSource(Trailing(c, mode, s, l), s)
            && SameSource(Interrupted(c, s, l), s)
  {
    hide ReportDrop;
    ReportNoFile(c, s, |l.scratch|, PartialRecord, file);
    ReportNoFile(c, s, |l.scratch|, TrailingData, file);
    ReportNoFile(c, s, |l.scratch|, MiddleOfRecord, file);
  }

  predicate SameSource(a: State, b: State) {
    a.file == b.file && a.readError == b.readError
  }

  ghost predicate NoFile(a: StepResult, b: StepResult, s: State, file: File) {
    && b == (if a.Return? then Return(a.outcome, OnFile(a.s, file)) else Continue(OnFile(a.s, file), a.l))
    && SameSource(a.s, s)
  }

  lemma DispatchNoFile(c: Config, mode: Mode, l: Local, offset: nat, r: PhysicalResult, file: File)
    ensures NoFile(Dispatch(c, mode, l, offset, r), Dispatch(c, mode, l, offset, r.(s := OnFile(r.s, file))), r.s, file)
  {
    hide Dispatch, NoFile;
    if 1 <= r.code <= 8 {
      RecordNoFile(c, mode, l, offset, r, file);
    } else if r.code == BAD_HEADER || r.code == EOF || r.code == OLD_RECORD {
      EndNoFile(c, mode, l, offset, r, file);
    } else {
      BadNoFile(c, mode, l, offset, r, file);
    }
  }

  lemma RecordNoFile(c: Config, mode: Mode, l: Local, offset: nat, r: PhysicalResult, file: File)
    requires 1 <= r.code <= 8
    ensures NoFile(Dispatch(c, mode, l, offset, r), Dispatch(c, mode, l, offset, r.(s := OnFile(r.s, file))), r.s, file)
  {
    hide ReportDrop, Unfinished, Trailing, Interrupted;
    HelpersNoFile(c, mode, r.s, l, file);
    ReportNoFile(c, r.s, |r.fragment|, MissingStart, file);
  }

  lemma EndNoFile(c: Config, mode: Mode, l: Local, offset: nat, r: PhysicalResult, file: File)
    requires r.code == BAD_HEADER || r.code == EOF || r.code == OLD_RECORD
    ensures NoFile(Dispatch(c, mode, l, offset, r), Dispatch(c, mode, l, offset, r.(s := OnFile(r.s, file))), r.s, file)
  {
    hide ReportDrop, Unfinished, Trailing, Interrupted;
    HelpersNoFile(c, mode, r.s, l, file);
    ReportNoFile(c, r.s, r.drop, TruncatedHeader, file);
    HelpersNoFile(c, mode, ReportDrop(c, r.s, r.drop, TruncatedHeader), l, file);
  }

  lemma BadNoFile(c: Config, mode: Mode, l: Local, offset: nat, r: PhysicalResult, file: File)
    requires !(1 <= r.code <= 8) && r.code != BAD_HEADER && r.code != EOF && r.code != OLD_RECORD
    ensures NoFile(Dispatch(c, mode, l, offset, r), Dispatch(c, mode, l, offset, r.(s := OnFile(r.s, file))), r.s, file)
  {
    hide ReportDrop, Unfinished, Trailing, Interrupted;
    var reason := if r.code == BAD_RECORD_LEN then BadLength else BadChecksum;
    if r.code == BAD_RECORD || r.code == BAD_RECORD_LEN || r.code == BAD_RECORD_CHECKSUM {
      HelpersNoFile(c, mode, r.s, l, file);
      ReportNoFile(c, r.s, r.drop, reason, file);
      HelpersNoFile(c, mode, ReportDrop(c, r.s, r.drop, reason), l, file);
    } else {
      ReportNoFile(c, r.s, |r.fragment| + (if l.inFragment then |l.scratch| else 0), UnknownType(r.code), file);
    }
  }

  lemma StepNoFile(c: Config, mode: Mode, s: State, l: Local, file: File)
    requires s.readError
    ensures NoFile(Step(c, mode, s, l), Step(c, mode, OnFile(s, file), l), s, file)
  {
    hide ReadPhysical, Dispatch;
    PhysicalNoFile(c, s, file);
    DispatchNoFile(c, mode, l, Position(s), ReadPhysical(c, s), file);
  }

  lemma {:induction false} LoopNoFile(c: Config, mode: Mode, s: State, l: Local, file: File)
    requires s.readError
    ensures var a, b := Loop(c, mode, s, l), Loop(c, mode, OnFile(s, file), l);
            b == Result(a.outcome, OnFile(a.s, file)) && SameSource(a.s, s)
    decreases Unread(s), |s.buffer|
  {
    hide Step;
    StepNoFile(c, mode, s, l, file);
    match Step(c, mode, s, l)
    case Return(_, _) =>
    case Continue(s', l') =>
      if Progress(s, s') {
        LoopNoFile(c, mode, s', l', file);
      }
  }

  // What a call returned and where it left the reader.
  ghost predicate SoundCall(c: Config, floor: nat, data: Bytes, r: Result) {
    && r.s.file.data == data && r.s.file.pos >= floor
    && (r.outcome.Record? ==> InFile(c, data, floor, r.outcome.bytes))
  }

  lemma HeldLoop(c: Config, floor: nat, mode: Mode, s: State)
    requires c.checksum && Held(floor, s)
    ensures var r := Loop(c, mode, s, IDLE);
            Held(floor, r.s) && SoundCall(c, floor, s.file.data, r)
  {
    hide Loop, Assembles, Opening, Loaded;
    var p: nat :| HeldTo(floor, s, p);
    var w := Rewound(s, p);
    assert Explained(c, floor, w, IDLE, []);
    LoopSound(c, floor, mode, w, IDLE, []);
    var r := Loop(c, mode, w, IDLE);
    if s.readError {
      LoopNoFile(c, mode, w, IDLE, s.file);
      assert OnFile(w, s.file) == s;
      var u := Loop(c, mode, s, IDLE).s;
      assert Rewound(u, p) == r.s;
      assert HeldTo(floor, u, p);
    } else {
      assert w == s;
      LoadedIsHeld(floor, r.s);
    }
  }

  // ---------- after a repeated skip ----------

  // Bytes of an earlier block are left in the buffer, which the reader now takes to end at the
  // initial block.
  predicate LeftOver(c: Config, s: State) {
    BlockStart(c) > 0 && s.endOfBuffer == BlockStart(c) && |s.buffer| <= BLOCK_SIZE
  }

  lemma LeftOverBehind(c: Config, s: State)
    requires LeftOver(c, s) && |s.buffer| >= HEADER_SIZE
    ensures Position(s) < c.initialOffset
  {
    assert BlockStart(c) % BLOCK_SIZE == 0;
  }

  // A physical read that has gone on to the file from where it stands.
  ghost predicate FoundAhead(c: Config, s: State, r: PhysicalResult) {
    && Loaded(r.s) && r.s.file.data == s.file.data && At(r.s) >= s.file.pos
    && (1 <= r.code <= 8 ==>
          && TakenSize(c, r) <= At(r.s) && Genuine(c, s.file.data, Taken(c, r))
          && Taken(c, r).at >= s.file.pos)
  }

  // The physical read drops what is left over, or goes on to the file.
  lemma LeftOverPhysical(c: Config, s: State)
    requires c.checksum && LeftOver(c, s)
    ensures var r := ReadPhysical(c, s);
            && r.s.file.data == s.file.data
            && (|| (LeftOver(c, r.s) && !(1 <= r.code <= 8) && r.s.file.pos == s.file.pos)
                || FoundAhead(c, s, r))
  {
    hide ReadMore, ReadPayload, Genuine, Position, BlockStart, DecodeFixed32, DecodeLength;
    if |s.buffer| < HEADER_SIZE {
      LeftOverMore(c, s);
    } else {
      LeftOverBehind(c, s);
      var t, length := TypeOf(s.buffer[6]), DecodeLength(s.buffer[4], s.buffer[5]);
      if IsRecyclableType(t) {
        var s1 := if Position(s) == 0 then s.(recycled := true) else s;
        if |s.buffer| < RECYCLABLE_HEADER_SIZE {
          LeftOverMore(c, s1);
        } else {
          LeftOverPayload(c, s, s1, t, RECYCLABLE_HEADER_SIZE, length);
        }
      } else {
        LeftOverPayload(c, s, s, t, HEADER_SIZE, length);
      }
    }
  }

  lemma LeftOverPayload(c: Config, s: State, s1: State, t: nat, headerSize: nat, length: nat)
    requires LeftOver(c, s) && s1 == s.(recycled := s1.recycled) && Position(s) < c.initialOffset
    requires HEADER_SIZE <= headerSize <= |s.buffer|
    ensures var r := ReadPayload(c, s1, t, headerSize, length);
            LeftOver(c, r.s) && !(1 <= r.code <= 8) && r.s.file == s.file
  {
    hide Crc.Value, Crc.Unmask, DecodeFixed32, BlockStart, Sub64;
  }

  lemma LeftOverMore(c: Config, s: State)
    requires c.checksum && LeftOver(c, s)
    ensures var m := ReadMore(c, s);
            && (!m.ok ==> FoundAhead(c, s, PhysicalResult(m.code, [], m.drop, m.s)))
            && (m.ok ==> FoundAhead(c, s, ReadPhysical(c, m.s)))
  {
    hide ReadPhysical, Genuine, BlockStart;
    var m := ReadMore(c, s);
    assert Loaded(m.s);
    if m.ok {
      PhysicalSound(c, m.s);
    }
  }

  lemma {:induction false} LeftOverLoop(c: Config, floor: nat, mode: Mode, s: State, l: Local)
    requires c.checksum && LeftOver(c, s) && !l.inFragment && s.file.pos >= floor
    ensures var r := Loop(c, mode, s, l);
            SoundCall(c, floor, s.file.data, r) && (r.outcome.Record? ==> Loaded(r.s) && At(r.s) >= floor)
    decreases Unread(s), |s.buffer|
  {
    hide ReadPhysical, Dispatch, Genuine, Assembles, Opening, LeftOver, Payloads;
    LeftOverPhysical(c, s);
    var r := ReadPhysical(c, s);
    DispatchCases(c, mode, l, Position(s), r);
    DispatchKeeps(c, mode, l, Position(s), r);
    var data := s.file.data;
    var xs: seq<Fragment> := [];
    if 1 <= r.code <= 8 {
      xs := [Taken(c, r)];
      SingleFragment(c, data, xs[0]);
    }
    match Step(c, mode, s, l)
    case Return(_, _) =>
    case Continue(s', l') =>
      if Progress(s, s') {
        if LeftOver(c, r.s) && !(1 <= r.code <= 8) && r.s.file.pos == s.file.pos {
          LeftOverLoop(c, floor, mode, s', l');
        } else {
          assert Explained(c, floor, s', l', xs);
          LoopSound(c, floor, mode, s', l', xs);
        }
      }
  }

  lemma DispatchKeeps(c: Config, mode: Mode, l: Local, offset: nat, r: PhysicalResult)
    ensures LeftOver(c, r.s) ==> LeftOver(c, Dispatch(c, mode, l, offset, r).s)
  {
    hide Dispatch, BlockStart;
  }

  // ---------- every call ----------

  // Every record a checksumming reader returns, in any mode and from any bytes, was assembled
  // from fragments that the file holds exactly as the writer writes them.
  lemma ReadRecordSound(c: Config, floor: nat, mode: Mode, s: State)
    requires c.checksum && Sane(c, floor, s)
    ensures var r := ReadRecord(c, mode, s);
            Sane(c, floor, r.s) && SoundCall(c, floor, s.file.data, r)
  {
    hide Loop, Assembles, BlockStart, Fits, Held;
    if s.lastRecordOffset < c.initialOffset {
      SkipFacts(c, floor, s);
      var k := SkipToInitialBlock(c, s);
      if k.ok {
        LoopFits(c, mode, k.s, IDLE);
        if BlockStart(c) > 0 {
          LeftOverLoop(c, floor, mode, k.s, IDLE);
          if Loop(c, mode, k.s, IDLE).outcome.Record? {
            LoadedIsHeld(floor, Loop(c, mode, k.s, IDLE).s);
          }
        } else {
          HeldLoop(c, floor, mode, k.s);
        }
      }
    } else {
      LoopFits(c, mode, s, IDLE);
      HeldLoop(c, floor, mode, s);
    }
  }

  lemma SkipFacts(c: Config, floor: nat, s: State)
    requires Fits(s)
    ensures var k := SkipToInitialBlock(c, s);
            && Fits(k.s) && k.s.file.data == s.file.data && k.s.lastRecordOffset == s.lastRecordOffset
            && k.s.file.pos >= s.file.pos
            && (BlockStart(c) > 0 ==> LeftOver(c, k.s))
            && (BlockStart(c) == 0 ==> k.ok && (Held(floor, s) ==> Held(floor, k.s)))
  {
    hide BlockStart;
    var k := SkipToInitialBlock(c, s);
    if BlockStart(c) == 0 && Held(floor, s) {
      var p: nat :| HeldTo(floor, s, p);
      assert HeldTo(floor, k.s, p);
    }
  }

  // Resuming keeps such states too, and so does the file growing meanwhile.
  lemma UnmarkSane(c: Config, floor: nat, s: State)
    requires Sane(c, floor, s)
    ensures Sane(c, floor, UnmarkEof(c, s)) && UnmarkEof(c, s).file.data == s.file.data
  {
    hide BlockStart, Loaded, ReportDrop, Held;
    var u := UnmarkEof(c, s);
    assert Fits(u);
    if Held(floor, s) {
      UnmarkHeld(c, floor, s);
    }
  }

  lemma UnmarkHeld(c: Config, floor: nat, s: State)
    requires Held(floor, s)
    ensures Held(floor, UnmarkEof(c, s))
  {
    hide Loaded, ReportDrop;
    var u := UnmarkEof(c, s);
    var p: nat :| HeldTo(floor, s, p);
    if s.readError {
      assert u == s;
    } else {
      assert Rewound(s, p) == s;
      UnmarkKeepsLoaded(c, s);
      if u.readError {
        assert HeldTo(floor, u, p);
      } else {
        LoadedIsHeld(floor, u);
      }
    }
  }

  lemma GrowthSane(c: Config, floor: nat, s: State, more: Bytes)
    requires Sane(c, floor, s)
    ensures Sane(c, floor, Grown(s, more))
  {
    hide BlockStart, Loaded;
    if Held(floor, s) {
      var p: nat :| HeldTo(floor, s, p);
      GrowthKeepsLoaded(Rewound(s, p), more);
      assert Rewound(Grown(s, more), p) == Grown(Rewound(s, p), more);
      assert HeldTo(floor, Grown(s, more), p);
    }
  }

  // ---------- whole runs ----------

  datatype Event = Call(mode: Mode) | Resume | Grow(more: Bytes)

  datatype Session = Session(s: State, returned: seq<Bytes>)

  function Next(c: Config, y: Session, e: Event): Session {
    match e
    case Call(mode) =>
      var r := ReadRecord(c, mode, y.s);
      Session(r.s, if r.outcome.Record? then y.returned + [r.outcome.bytes] else y.returned)
    case Resume => y.(s := UnmarkEof(c, y.s))
    case Grow(more) => y.(s := Grown(y.s, more))
  }

  function After(c: Config, y: Session, events: seq<Event>): Session {
    if events == [] then y
    else Next(c, After(c, y, events[..|events| - 1]), events[|events| - 1])
  }

  ghost predicate AllAssemble(c: Config, data: Bytes, floor: nat, records: seq<Bytes>) {
    forall i :: 0 <= i < |records| ==> InFile(c, data, floor, records[i])
  }

  // Fragments in a file stay there as it grows.
  lemma AssemblesGrows(c: Config, data: Bytes, more: Bytes, xs: seq<Fragment>, record: Bytes)
    requires Assembles(c, data, xs, record)
    ensures Assembles(c, data + more, xs, record)
  {
    hide Payloads;
    forall i | 0 <= i < |xs|
      ensures Genuine(c, data + more, xs[i])
    {
      GenuineGrows(c, data, more, xs[i]);
    }
    hide Genuine;
    assert forall p, q :: Adjacent(data, p, q) ==> Adjacent(data + more, p, q);
    hide Adjacent;
    var n := |xs| - 1;
    assert Connected(c, data + more, xs);
    if n > 0 {
      assert Connected(c, data + more, xs[..n]);
    }
  }

  lemma GenuineGrows(c: Config, data: Bytes, more: Bytes, x: Fragment)
    requires Genuine(c, data, x)
    ensures Genuine(c, data + more, x)
  {
    hide Physical;
    assert (data + more)[x.at..FragmentEnd(c, x)] == data[x.at..FragmentEnd(c, x)];
  }

  lemma NextSound(c: Config, floor: nat, y: Session, e: Event)
    requires c.checksum && Sane(c, floor, y.s) && AllAssemble(c, y.s.file.data, floor, y.returned)
    ensures var z := Next(c, y, e);
            Sane(c, floor, z.s) && AllAssemble(c, z.s.file.data, floor, z.returned)
  {
    hide Sane, InFile, ReadRecord, UnmarkEof;
    match e
    case Call(mode) => ReadRecordSound(c, floor, mode, y.s);
    case Resume => UnmarkSane(c, floor, y.s);
    case Grow(more) =>
      GrowthSane(c, floor, y.s, more);
      AllGrow(c, y.s.file.data, more, floor, y.returned);
  }

  lemma AllGrow(c: Config, data: Bytes, more: Bytes, floor: nat, records: seq<Bytes>)
    requires AllAssemble(c, data, floor, records)
    ensures AllAssemble(c, data + more, floor, records)
  {
    hide Assembles;
    forall i | 0 <= i < |records|
      ensures InFile(c, data + more, floor, records[i])
    {
      var ys :| Assembles(c, data, ys, records[i]) && Beyond(ys, floor);
      AssemblesGrows(c, data, more, ys, records[i]);
    }
  }

  // From any such state, every record returned is one that the file holds from the floor on.
  lemma {:induction false} RunSoundFrom(c: Config, floor: nat, y: Session, events: seq<Event>)
    requires c.checksum && Sane(c, floor, y.s) && AllAssemble(c, y.s.file.data, floor, y.returned)
    ensures var z := After(c, y, events);
            Sane(c, floor, z.s) && AllAssemble(c, z.s.file.data, floor, z.returned)
    decreases |events|
  {
    hide Sane, Next, AllAssemble;
    if events != [] {
      RunSoundFrom(c, floor, y, events[..|events| - 1]);
      NextSound(c, floor, After(c, y, events[..|events| - 1]), events[|events| - 1]);
    }
  }

  // From any bytes, with any failing reads, any initial offset and any interleaving of calls,
  // resumptions and growth of the file: every record returned is one that the file holds.
  lemma RunSound(c: Config, data: Bytes, faults: map<nat, nat>, events: seq<Event>)
    requires c.checksum
    ensures var y := After(c, Session(Initial(data, faults), []), events);
            Sane(c, 0, y.s) && AllAssemble(c, y.s.file.data, 0, y.returned)
  {
    hide Sane, After;
    InitialSane(c, data, faults);
    RunSoundFrom(c, 0, Session(Initial(data, faults), []), events);
  }

  lemma InitialSane(c: Config, data: Bytes, faults: map<nat, nat>)
    ensures Sane(c, 0, Initial(data, faults))
  {
    LoadedIsHeld(0, Initial(data, faults));
  }

  // ---------- what a repeated skip loses ----------

  // A call that skips to the initial block, in whatever state the reader is, moves on from its file
  // position by as many bytes as there are before that block. No record that begins in the bytes
  // passed over is returned by this call or later.
  lemma SkippedForGood(c: Config, mode: Mode, s: State, events: seq<Event>)
    requires c.checksum && Fits(s) && s.lastRecordOffset < c.initialOffset
    requires BlockStart(c) > 0 && s.file.calls !in s.file.faults
    ensures var floor := Min(s.file.pos + BlockStart(c), |s.file.data|);
            var y := After(c, Next(c, Session(s, []), Call(mode)), events);
            AllAssemble(c, y.s.file.data, floor, y.returned)
  {
    hide Loop, BlockStart, Fits, Held, After, InFile;
    var floor := Min(s.file.pos + BlockStart(c), |s.file.data|);
    SkipFacts(c, floor, s);
    var k := SkipToInitialBlock(c, s);
    LoopFits(c, mode, k.s, IDLE);
    LeftOverLoop(c, floor, mode, k.s, IDLE);
    var r := Loop(c, mode, k.s, IDLE);
    if r.outcome.Record? {
      LoadedIsHeld(floor, r.s);
    }
    RunSoundFrom(c, floor, Next(c, Session(s, []), Call(mode)), events);
  }
}
