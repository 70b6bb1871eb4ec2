/**
 Where following the tail of a log stops working (rutil/log_reader.cc:101-165, 235-296): a reader
 that meets the end of the file between two fragments of a record loses that record, and one that
 meets it inside a fragment may take payload for records. In the trailer before a record the end of
 the file does no harm.
 */
module LogTailLimits {
  import opened Coding
  import opened LogFormat
  import opened LogReader
  import opened LogSoundness
  import opened LogParsing
  import opened LogRecords
  import opened LogTermination
  import opened LogRecovery
  import opened LogTail
  import opened LogOffset
  import Crc = Crc32c

  // ---------- the end of the file inside a record ----------

  // The reports for fragments that continue a record whose start was forgotten.
  function Orphans(f: Format, q: nat, left: Bytes): (r: seq<Report>)
    requires HeaderFits(f, q)
    ensures r != [] && forall i :: 0 <= i < |r| ==> r[i].reason == MissingStart
    decreases |left|, q % BLOCK_SIZE
  {
    var n := Min(|left|, Available(f, q));
    [Report(n, MissingStart)] + if n == |left| then [] else Orphans(f, BlockEnd(q), left[n..])
  }

  function Reported(c: Config, reports: seq<Report>): seq<Report> {
    if c.reporting then reports else []
  }

  lemma OrphanFragment(c: Config, mode: Mode, f: Format, s: State, q: nat, t: Byte, payload: Bytes) returns (s': State)
    requires Synced(s) && Matches(c, f) && |payload| <= 0xffff
    requires 1 <= t <= 8 && IsRecyclableType(t) == f.recycle
    requires NextHeader(s, q) && q % BLOCK_SIZE + |Physical(f, t, payload)| <= BLOCK_SIZE
    requires q + |Physical(f, t, payload)| <= |Visible(s)|
    requires Visible(s)[q..q + |Physical(f, t, payload)|] == Physical(f, t, payload)
    requires q >= c.initialOffset && (LegacyType(t) == MIDDLE_TYPE || LegacyType(t) == LAST_TYPE)
    ensures Skipped(c, mode, s, s', q + |Physical(f, t, payload)|)
    ensures s'.reports == s.reports + Reported(c, [Report(|payload|, MissingStart)])
  {
    hide Physical, ReadPhysical, Synced, Sub64;
    PhysicalWhole(c, f, s, q, t, payload);
    PhysicalProgress(c, s);
    var r := ReadPhysical(c, s);
    PositionIsAt(r.s);
    BelowPosition(r.s, |payload|, q);
    s' := Step(c, mode, s, IDLE).s;
    assert Step(c, mode, s, IDLE) == Continue(ReportDrop(c, r.s, |payload|, MissingStart), IDLE);
  }

  lemma BelowPosition(s: State, n: nat, q: nat)
    requires Synced(s) && q + n <= At(s)
    ensures Sub64(Position(s), n) >= q
  {
    PositionIsAt(s);
  }

  lemma {:induction false} OrphanFragments(
    c: Config, mode: Mode, f: Format, s: State, q: nat, left: Bytes) returns (s': State)
    requires Synced(s) && Matches(c, f) && HeaderFits(f, q) && NextHeader(s, q) && q >= c.initialOffset
    requires q <= |Visible(s)| && Fragments(f, q, left, false) <= Visible(s)[q..]
    ensures Skipped(c, mode, s, s', q + |Fragments(f, q, left, false)|)
    ensures s'.reports == s.reports + Reported(c, Orphans(f, q, left))
    decreases |left|, q % BLOCK_SIZE
  {
    hide Physical, Fragments, Synced, NextHeader, Visible, Skipped, Loop;
    var n, t, x, rest := FragmentsSplit(f, q, left, false);
    PrefixSplit(Visible(s), q, x, rest);
    s' := OrphanFragment(c, mode, f, s, q, t, left[..n]);
    if n < |left| {
      var s1 := s';
      SkippedNext(c, mode, s, s1, q + |x|);
      s' := OrphanFragments(c, mode, f, s1, q + |x|, left[n..]);
      SkippedTrans(c, mode, s, s1, s', q + |x|, q + |x| + |rest|);
    }
  }

  // The file ends right after some of a record's fragments when the reader gets there. The record is
  // not returned then, nor after the rest has arrived and reading was resumed: its other fragments
  // are reported as lacking a start, and everything after it comes back.
  lemma LostRecord(
    c: Config, mode: Mode, f: Format, s: State, record: Bytes, head: Bytes, left: Bytes, rest: Bytes, later: seq<Bytes>)
    requires Synced(s) && Matches(c, f) && At(s) >= c.initialOffset && s.lastRecordOffset >= c.initialOffset
    requires var p := At(s);
             var b := p + |head|;
             && HeaderFits(f, b) && rest == Fragments(f, b, left, false) && RecordBytes(f, p, record) == head + rest
             && Visible(s) == s.file.data && |s.file.data| == b && s.file.data[p..] == head
    ensures var r := ReadRecord(c, mode, s);
            var b := At(s) + |head|;
            var u := UnmarkEof(c, Grown(r.s, rest + LogBytes(f, b + |rest|, later)));
            && r.outcome.End? && ReadAll(c, mode, u).records == later
            && ReadAll(c, mode, u).s.reports == r.s.reports + Reported(c, Orphans(f, b, left))
  {
    hide LogBytes, Fragments, RecordBytes, Synced, Visible, Loop, ReadAll, UnmarkEof, Moved, Ends, Reports, Skipped,
         Orphans,
         NextHeader, ReadPhysical;
    SyncedIsLoaded(s);
    var p, b := At(s), At(s) + |head|;
    var tail := LogBytes(f, b + |rest|, later);
    Read1(c, mode, s);
    RecordCut(c, mode, f, s, p, record);
    var r := ReadRecord(c, mode, s);
    EndsHere(s, r);
    var g := Grown(r.s, rest + tail);
    GrowthKeepsSync(r.s, rest + tail);
    UnmarkSynced(c, g);
    var u := UnmarkEof(c, g);
    var v := Visible(u);
    assert v == s.file.data + (rest + tail);
    assert v[b..] == rest + tail;
    NextHere(u, b);
    var s' := OrphanFragments(c, mode, f, u, b, left);
    SkippedNext(c, mode, u, s', b + |rest|);
    SkippedReads(c, mode, u, s', b + |rest|);
    assert v[b + |rest|..] == tail;
    AllLater(c, mode, f, s', later);
  }

  // Reading on from a state that a call passes through.
  lemma SkippedReads(c: Config, mode: Mode, s: State, s': State, p: nat)
    requires Skipped(c, mode, s, s', p) && s.lastRecordOffset >= c.initialOffset
    ensures ReadAll(c, mode, s) == ReadAll(c, mode, s')
  {
    hide Loop;
    Read1(c, mode, s);
    Read1(c, mode, s');
  }

  lemma AllLater(c: Config, mode: Mode, f: Format, s: State, later: seq<Bytes>)
    requires Synced(s) && Matches(c, f) && At(s) >= c.initialOffset && s.lastRecordOffset >= c.initialOffset
    requires At(s) <= |Visible(s)| && Visible(s)[At(s)..] == LogBytes(f, At(s), later)
    ensures ReadAll(c, mode, s).records == later && ReadAll(c, mode, s).s.reports == s.reports
  {
    hide LogBytes, Synced, Visible, ReadAll, Complete, Silent, Reports;
    SyncedIsLoaded(s);
    var p := At(s);
    var log := LogBytes(f, p, later);
    assert log[..|log|] == log && later[..|later|] == later;
    CompleteAll(f, p, later);
    ReadAllVisible(c, mode, f, s, p, later, |log|);
    SilentReports(c, mode, f, p + |log|, s, ReadAll(c, mode, s).s);
  }

  // ---------- the end of the file before what parses as records ----------

  // The file ends n bytes into a record when the reader gets there, and what is missing of the record
  // are the bytes of some records. Once they have arrived and reading was resumed, those come back
  // and the later ones.
  lemma ReadsWhatFollows(
    c: Config, mode: Mode, f: Format, s: State, record: Bytes, n: nat, found: seq<Bytes>, later: seq<Bytes>)
    requires Synced(s) && Matches(c, f) && At(s) >= c.initialOffset && s.lastRecordOffset >= c.initialOffset
    requires SeesOnly(f, s, record, n) && RecordBytes(f, At(s), record)[n..] == LogBytes(f, At(s) + n, found)
    ensures var r := ReadRecord(c, mode, s);
            var u := UnmarkEof(c, Grown(r.s, Arriving(f, At(s), record, n, later)));
            && r.outcome.End? && ReadAll(c, mode, u).records == found + later
            && ReadAll(c, mode, u).s.reports == r.s.reports
  {
    hide LogBytes, RecordBytes, Synced, Visible, Loop, ReadAll, UnmarkEof, Moved, Ends, Reports, TrailerSize,
         ReadPhysical;
    SyncedIsLoaded(s);
    var p := At(s);
    var b := p + n;
    var more := Arriving(f, p, record, n, later);
    Read1(c, mode, s);
    RecordCut(c, mode, f, s, p, record);
    var r := ReadRecord(c, mode, s);
    EndsHere(s, r);
    var g := Grown(r.s, more);
    GrowthKeepsSync(r.s, more);
    UnmarkSynced(c, g);
    var u := UnmarkEof(c, g);
    LogBytesAppend(f, b, found, later);
    assert Visible(u)[b..] == more == LogBytes(f, b, found + later);
    AllLater(c, mode, f, u, found + later);
  }

  // So an end anywhere in the trailer before a record does no harm.
  lemma TrailerHarmless(c: Config, mode: Mode, f: Format, s: State, record: Bytes, n: nat, later: seq<Bytes>)
    requires Synced(s) && Matches(c, f) && At(s) >= c.initialOffset && s.lastRecordOffset >= c.initialOffset
    requires n <= TrailerSize(f, At(s)) && SeesOnly(f, s, record, n)
    ensures var r := ReadRecord(c, mode, s);
            var u := UnmarkEof(c, Grown(r.s, Arriving(f, At(s), record, n, later)));
            && r.outcome.End? && ReadAll(c, mode, u).records == [record] + later
            && ReadAll(c, mode, u).s.reports == r.s.reports
  {
    hide LogBytes, RecordBytes, Synced, Visible, Loop, ReadAll, UnmarkEof, TrailerSize, Arriving;
    SyncedIsLoaded(s);
    TrailerTail(f, At(s), n, record);
    OneRecord(f, At(s) + n, record);
    ReadsWhatFollows(c, mode, f, s, record, n, [record], later);
  }

  // But an end inside a fragment can make payload pass for a record that was never added. For
  // instance a record whose payload is a physical record, seen when only its header was there.
  lemma ForgedInstance(c: Config, mode: Mode, b: Byte, later: seq<Bytes>)
    requires c.initialOffset == 0
    ensures var f := Format(false, 0);
            var record := Physical(f, 1, [b]);
            var log := LogBytes(f, 0, [record] + later);
            && |log| >= HEADER_SIZE
            && var r := ReadRecord(c, mode, Initial(log[..HEADER_SIZE], map[]));
            var all := ReadAll(c, mode, UnmarkEof(c, Grown(r.s, log[HEADER_SIZE..])));
            && r.outcome.End? && all.records == [[b]] + later
            && ReadAll(c, mode, Initial(log, map[])).records == [record] + later
  {
    hide LogBytes, Synced, Visible, ReadAll, UnmarkEof, ReadRecord, Physical, RecordBytes;
    var f := Format(false, 0);
    var record := Physical(f, 1, [b]);
    var x := RecordBytes(f, 0, record);
    SmallRecord(0, record);
    SmallRecord(HEADER_SIZE, [b]);
    PayloadLast(f, 1, record);
    LogBytesAppend(f, 0, [record], later);
    OneRecord(f, 0, record);
    OneRecord(f, HEADER_SIZE, [b]);
    var log := LogBytes(f, 0, [record] + later);
    var s := Initial(log[..HEADER_SIZE], map[]);
    InitialSynced(log[..HEADER_SIZE]);
    assert log[..HEADER_SIZE] == x[..HEADER_SIZE] && log[..HEADER_SIZE][0..] == x[..HEADER_SIZE];
    assert log[HEADER_SIZE..] == Arriving(f, 0, record, HEADER_SIZE, later);
    ReadsWhatFollows(c, mode, f, s, record, HEADER_SIZE, [[b]], later);
    RoundTrip(c, mode, f, [record] + later);
  }

  // A record of a few bytes near the start of a block.
  lemma SmallRecord(p: nat, record: Bytes)
    requires p <= HEADER_SIZE && |record| <= 8
    ensures var f := Format(false, 0);
            RecordBytes(f, p, record) == Physical(f, 1, record)
  {
    hide Physical;
    var f := Format(false, 0);
    var x := Physical(f, 1, record);
    assert record[..|record|] == record;
    assert ZeroBytes(0) + (x + []) == x;
  }

  lemma PayloadLast(f: Format, t: Byte, payload: Bytes)
    requires |payload| <= 0xffff
    ensures Physical(f, t, payload)[f.HeaderSize()..] == payload
  {
    hide Crc.Value, Crc.Mask, EncodeFixed32;
  }

  // The reader stands before a record of which n bytes are in the file.
  ghost predicate SeesOnly(f: Format, s: State, record: Bytes, n: nat)
    requires Loaded(s)
  {
    var x := RecordBytes(f, At(s), record);
    n < |x| && Visible(s) == s.file.data && |s.file.data| == At(s) + n && s.file.data[At(s)..] == x[..n]
  }

  // The rest of that record, and later ones.
  function Arriving(f: Format, p: nat, record: Bytes, n: nat, later: seq<Bytes>): Bytes {
    var x := RecordBytes(f, p, record);
    if n <= |x| then x[n..] + LogBytes(f, p + |x|, later) else []
  }

  // Every fragment but a record's last fills its block, so an end that splits no physical record is in
  // the trailer or at the end of a block. The record is returned later exactly if it is in the trailer.
  lemma ReturnedIffInTrailer(c: Config, mode: Mode, f: Format, s: State, record: Bytes, n: nat, later: seq<Bytes>)
    requires Synced(s) && Matches(c, f) && At(s) >= c.initialOffset && s.lastRecordOffset >= c.initialOffset
    requires n <= TrailerSize(f, At(s)) || (At(s) + n) % BLOCK_SIZE == 0
    requires SeesOnly(f, s, record, n)
    ensures var r := ReadRecord(c, mode, s);
            var u := UnmarkEof(c, Grown(r.s, Arriving(f, At(s), record, n, later)));
            && r.outcome.End?
            && (ReadAll(c, mode, u).records == [record] + later <==> n <= TrailerSize(f, At(s)))
            && (ReadAll(c, mode, u).records == later <==> n > TrailerSize(f, At(s)))
            && (c.reporting && n > TrailerSize(f, At(s)) ==> r.s.reports < ReadAll(c, mode, u).s.reports)
  {
    hide LogBytes, RecordBytes, Fragments, Synced, Visible, Loop, ReadAll, UnmarkEof, TrailerSize, Orphans;
    SyncedIsLoaded(s);
    var p := At(s);
    var x := RecordBytes(f, p, record);
    if n <= TrailerSize(f, p) {
      TrailerHarmless(c, mode, f, s, record, n, later);
    } else {
      var left, begin := RecordAtBlock(f, p, record, p + n);
      LostRecord(c, mode, f, s, record, x[..n], left, x[n..], later);
    }
    assert |[record] + later| == 1 + |later|;
  }

  // For instance: the first block of a legacy log that starts with a record of more than a block.
  // A reader that saw the file when only that block was there never returns the record.
  lemma LostInstance(c: Config, mode: Mode, record: Bytes, later: seq<Bytes>)
    requires c.initialOffset == 0 && |record| > BLOCK_SIZE - HEADER_SIZE
    ensures var f := Format(false, 0);
            var log := LogBytes(f, 0, [record] + later);
            && |log| > BLOCK_SIZE
            && var r := ReadRecord(c, mode, Initial(log[..BLOCK_SIZE], map[]));
            var all := ReadAll(c, mode, UnmarkEof(c, Grown(r.s, log[BLOCK_SIZE..])));
            && r.outcome.End? && all.records == later
            && (c.reporting ==> exists report :: report in all.s.reports && report.reason == MissingStart)
            && ReadAll(c, mode, Initial(log, map[])).records == [record] + later
  {
    hide LogBytes, Fragments, Synced, Visible, ReadAll, UnmarkEof, ReadRecord, Physical, Orphans;
    var f := Format(false, 0);
    var log := LogBytes(f, 0, [record] + later);
    var n, t, x, rest := FragmentsSplit(f, 0, record, true);
    var left := record[n..];
    assert RecordBytes(f, 0, record) == x + rest by { assert ZeroBytes(0) + (x + rest) == x + rest; }
    LogBytesAppend(f, 0, [record], later);
    OneRecord(f, 0, record);
    assert |x| == BLOCK_SIZE;
    assert log[..BLOCK_SIZE] == x;
    assert log[BLOCK_SIZE..] == rest + LogBytes(f, BLOCK_SIZE + |rest|, later);
    InitialSynced(x);
    assert x[0..] == x;
    LostRecord(c, mode, f, Initial(x, map[]), record, x, left, rest, later);
    RoundTrip(c, mode, f, [record] + later);
    if c.reporting {
      var r := ReadRecord(c, mode, Initial(x, map[]));
      var o := Orphans(f, BLOCK_SIZE, left);
      assert o[0] in r.s.reports + o;
    }
  }
}
