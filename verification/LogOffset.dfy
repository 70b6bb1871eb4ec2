/**
 Reading from an initial offset (rutil/log_reader.cc:44-65, 76-91, 419-429): the reader starts at
 a block boundary, possibly inside a record, and returns exactly the records whose first header
 lies at or after the offset.
 */
module LogOffset {
  import opened Coding
  import opened LogFormat
  import opened LogReader
  import opened LogSoundness
  import opened LogParsing
  import opened LogRecords
  import opened LogTermination
  import opened LogRecovery

  // The offset of the header of record i.
  function HeaderOffset(f: Format, p: nat, records: seq<Bytes>, i: nat): nat
    requires i < |records|
  {
    var q := Boundary(f, p, records, i);
    q + TrailerSize(f, q)
  }

  // How many leading records have their header before `offset`.
  function Before(f: Format, p: nat, records: seq<Bytes>, offset: nat): (k: nat)
    ensures k <= |records|
    decreases |records|
  {
    if records == [] || p + TrailerSize(f, p) >= offset then 0
    else 1 + Before(f, p + |RecordBytes(f, p, records[0])|, records[1..], offset)
  }

  // The records from there on are exactly those whose header is at or after `offset`.
  lemma {:induction false} BeforeIsExact(f: Format, p: nat, records: seq<Bytes>, offset: nat, i: nat)
    requires i < |records|
    ensures i < Before(f, p, records, offset) <==> HeaderOffset(f, p, records, i) < offset
    decreases |records|
  {
    hide RecordBytes, TrailerSize, Boundary;
    NoRecords(f, p, records, 0);
    if i > 0 {
      var q := p + |RecordBytes(f, p, records[0])|;
      BoundaryStep(f, p, records, i);
      HeaderGrows(f, p, records, i);
      BeforeIsExact(f, q, records[1..], offset, i - 1);
    }
  }

  lemma HeaderGrows(f: Format, p: nat, records: seq<Bytes>, i: nat)
    requires 0 < i < |records|
    ensures p + TrailerSize(f, p) <= HeaderOffset(f, p, records, i)
  {
    hide Fragments, LogBytes;
    BoundaryStep(f, p, records, i);
  }

  // ---------- the shape of the log at a block boundary ----------

  lemma BlockAfter(q: nat, b: nat)
    requires q < b && b % BLOCK_SIZE == 0
    ensures BlockEnd(q) <= b && q - q % BLOCK_SIZE + BLOCK_SIZE == BlockEnd(q)
  {
  }

  lemma {:induction false} FragmentsAtBlock(f: Format, q: nat, left: Bytes, begin: bool, b: nat) returns (rest: Bytes)
    requires HeaderFits(f, q) && b % BLOCK_SIZE == 0 && q < b < q + |Fragments(f, q, left, begin)|
    ensures Fragments(f, q, left, begin)[b - q..] == Fragments(f, b, rest, false)
    decreases |left|, q % BLOCK_SIZE
  {
    hide Fragments, Physical;
    var n, t, x, tail := FragmentsSplit(f, q, left, begin);
    BlockAfter(q, b);
    var e := q + |x|;
    assert n < |left|;
    if b == e {
      rest := left[n..];
      assert (x + tail)[b - q..] == tail;
    } else {
      rest := FragmentsAtBlock(f, e, left[n..], false, b);
      assert (x + tail)[b - q..] == tail[b - e..];
    }
  }

  // Seen from a block boundary b the log is the rest of some record j, followed by the records
  // after it; the record starts at b (begin) or before it.
  ghost predicate Shape(f: Format, p: nat, records: seq<Bytes>, b: nat, j: nat, left: Bytes, begin: bool) {
    && b % BLOCK_SIZE == 0 && j < |records|
    && p <= b <= p + |LogBytes(f, p, records)|
    && LogBytes(f, p, records)[b - p..] == Fragments(f, b, left, begin)
      + LogBytes(f, b + |Fragments(f, b, left, begin)|, records[j + 1..])
    && (if begin then HeaderOffset(f, p, records, j) == b && left == records[j] else HeaderOffset(f, p, records, j) < b)
    && b + |Fragments(f, b, left, begin)| == Boundary(f, p, records, j + 1)
  }

  lemma {:induction false} LogAtBlock(
    f: Format, p: nat, records: seq<Bytes>, b: nat) returns (j: nat, left: Bytes, begin: bool)
    requires b % BLOCK_SIZE == 0 && p <= b < p + |LogBytes(f, p, records)|
    ensures Shape(f, p, records, b, j, left, begin)
    decreases |records|
  {
    hide Fragments, RecordBytes;
    var x := RecordBytes(f, p, records[0]);
    var e := p + |x|;
    var rest := LogBytes(f, e, records[1..]);
    if b >= e {
      j, left, begin := LogAtBlock(f, e, records[1..], b);
      ShapeLater(f, p, records, b, j, left, begin);
      j := j + 1;
    } else {
      j := 0;
      left, begin := RecordAtBlock(f, p, records[0], b);
      assert (x + rest)[b - p..] == x[b - p..] + rest;
      assert records[..0] == [];
      assert records[..1][1..] == [];
      assert LogBytes(f, p, records[..1]) == x + [];
    }
  }

  lemma RecordAtBlock(f: Format, p: nat, record: Bytes, b: nat) returns (left: Bytes, begin: bool)
    requires b % BLOCK_SIZE == 0 && p <= b < p + |RecordBytes(f, p, record)|
    ensures HeaderFits(f, b) && RecordBytes(f, p, record)[b - p..] == Fragments(f, b, left, begin)
    ensures if begin then p + TrailerSize(f, p) == b && left == record else p + TrailerSize(f, p) < b
  {
    hide Fragments;
    var k := TrailerSize(f, p);
    var x := Fragments(f, p + k, record, true);
    begin := b == p + k;
    if begin {
      left := record;
      assert (ZeroBytes(k) + x)[b - p..] == x;
    } else {
      assert b > p + k;
      left := FragmentsAtBlock(f, p + k, record, true, b);
      assert (ZeroBytes(k) + x)[b - p..] == x[b - p - k..];
    }
  }

  lemma ShapeLater(f: Format, p: nat, records: seq<Bytes>, b: nat, j: nat, left: Bytes, begin: bool)
    requires records != []
    requires var e := p + |RecordBytes(f, p, records[0])|; Shape(f, e, records[1..], b, j, left, begin)
    ensures Shape(f, p, records, b, j + 1, left, begin)
  {
    hide Fragments, RecordBytes, Boundary, TrailerSize;
    var x := RecordBytes(f, p, records[0]);
    var e := p + |x|;
    BoundaryStep(f, p, records, j + 1);
    BoundaryStep(f, p, records, j + 2);
    assert records[1..][j] == records[j + 1] && records[1..][j + 1..] == records[j + 2..];
    var rest := LogBytes(f, e, records[1..]);
    assert (x + rest)[b - p..] == rest[b - e..];
  }

  // ---------- skipping ----------

  // The loop goes on from s' as it would from s, having passed over everything before p.
  ghost predicate Skipped(c: Config, mode: Mode, s: State, s': State, p: nat) {
    && Loop(c, mode, s, IDLE) == Loop(c, mode, s', IDLE)
    && Moved(s, s'.(reports := s.reports), p)
  }

  lemma SkippedTrans(c: Config, mode: Mode, s: State, s1: State, s2: State, p: nat, q: nat)
    requires Skipped(c, mode, s, s1, p) && Skipped(c, mode, s1, s2, q)
    ensures Skipped(c, mode, s, s2, q)
  {
    hide Loop;
  }

  lemma SkippedNext(c: Config, mode: Mode, s: State, s': State, p: nat)
    requires Skipped(c, mode, s, s', p)
    ensures Synced(s') && At(s') == p && NextHeader(s', p) && Visible(s') == Visible(s)
    ensures s'.lastRecordOffset == s.lastRecordOffset
  {
    hide Loop;
  }

  // A fragment before the offset, or one that continues a record whose start was not seen.
  lemma SkipFragment(c: Config, mode: Mode, f: Format, s: State, q: nat, t: Byte, payload: Bytes) returns (s': State)
    requires Synced(s) && Matches(c, f) && |payload| <= 0xffff
    requires 1 <= t <= 8 && IsRecyclableType(t) == f.recycle
    requires NextHeader(s, q) && q % BLOCK_SIZE + |Physical(f, t, payload)| <= BLOCK_SIZE
    requires q + |Physical(f, t, payload)| <= |Visible(s)|
    requires Visible(s)[q..q + |Physical(f, t, payload)|] == Physical(f, t, payload)
    requires q < c.initialOffset || LegacyType(t) == MIDDLE_TYPE || LegacyType(t) == LAST_TYPE
    ensures Skipped(c, mode, s, s', q + |Physical(f, t, payload)|)
  {
    hide Physical, ReadPhysical, ReportDrop, Synced;
    PhysicalWhole(c, f, s, q, t, payload);
    PhysicalProgress(c, s);
    var r := Step(c, mode, s, IDLE);
    s' := r.s;
    assert r.Continue? && r.l == IDLE && Progress(s, s');
  }

  lemma {:induction false} SkipFragments(
    c: Config, mode: Mode, f: Format, s: State, q: nat, left: Bytes, begin: bool) returns (s': State)
    requires Synced(s) && Matches(c, f) && HeaderFits(f, q) && NextHeader(s, q)
    requires begin ==> q < c.initialOffset
    requires q <= |Visible(s)| && Fragments(f, q, left, begin) <= Visible(s)[q..]
    ensures Skipped(c, mode, s, s', q + |Fragments(f, q, left, begin)|)
    decreases |left|, q % BLOCK_SIZE
  {
    hide Physical, Fragments, Synced, NextHeader, Visible, Skipped, Loop;
    var n, t, x, rest := FragmentsSplit(f, q, left, begin);
    PrefixSplit(Visible(s), q, x, rest);
    s' := SkipFragment(c, mode, f, s, q, t, left[..n]);
    if n < |left| {
      var s1 := s';
      SkippedNext(c, mode, s, s1, q + |x|);
      s' := SkipFragments(c, mode, f, s1, q + |x|, left[n..], false);
      SkippedTrans(c, mode, s, s1, s', q + |x|, q + |x| + |rest|);
    }
  }

  lemma SkipRecord(c: Config, mode: Mode, f: Format, s: State, p: nat, record: Bytes) returns (s': State)
    requires Synced(s) && Matches(c, f) && p == At(s) && p + TrailerSize(f, p) < c.initialOffset
    requires p <= |Visible(s)| && RecordBytes(f, p, record) <= Visible(s)[p..]
    ensures Skipped(c, mode, s, s', p + |RecordBytes(f, p, record)|)
  {
    hide Fragments, Loop, Step, Synced, ReadPhysical, Skipped;
    var k := TrailerSize(f, p);
    var q := p + k;
    var x := Fragments(f, q, record, true);
    PrefixSplit(Visible(s), p, ZeroBytes(k), x);
    if k > 0 {
      AtTrailer(f, s, p);
    }
    if k < HEADER_SIZE {
      s' := SkipFragments(c, mode, f, s, q, record, true);
    } else {
      assert s.buffer == ZeroBytes(k);
      ZerosStep(c, mode, s);
      var s1 := Step(c, mode, s, IDLE).s;
      IsSkipped(c, mode, s, s1, q);
      SkippedNext(c, mode, s, s1, q);
      s' := SkipFragments(c, mode, f, s1, q, record, true);
      SkippedTrans(c, mode, s, s1, s', q, q + |x|);
    }
  }

  lemma IsSkipped(c: Config, mode: Mode, s: State, s': State, p: nat)
    requires Loop(c, mode, s, IDLE) == Loop(c, mode, s', IDLE) && Moved(s, s', p)
    ensures Skipped(c, mode, s, s', p)
  {
    hide Loop;
  }

  // ---------- the first record ----------

  lemma EndOfLog(c: Config, mode: Mode, s: State)
    requires Synced(s) && At(s) == |Visible(s)|
    ensures Loop(c, mode, s, IDLE).outcome.End? && Ends(s, Loop(c, mode, s, IDLE))
  {
    hide Physical, ReadPhysical, ReportDrop;
    var f := Format(false, 0);
    assert Visible(s)[At(s)..] == [];
    if At(s) % BLOCK_SIZE + HEADER_SIZE <= BLOCK_SIZE {
      PhysicalCut(c, f, s, At(s), 1, []);
    } else {
      ShortEnd(c, s);
    }
  }

  // A returned record's reported offset is never before the initial offset, so the skip to the
  // initial block is not repeated.
  lemma OffsetNotBehind(c: Config, f: Format, p: nat)
    requires p >= BlockStart(c) && p + TrailerSize(f, p) >= c.initialOffset
    ensures ReportedOffset(f, p) >= c.initialOffset
  {
  }

  ghost predicate FindsFirst(c: Config, f: Format, p: nat, records: seq<Bytes>, s: State, r: Result) {
    var k := Before(f, p, records, c.initialOffset);
    if k == |records| then r.outcome.End?
    else
      && r.outcome == Record(records[k])
      && Synced(r.s) && At(r.s) == Boundary(f, p, records, k + 1)
      && Visible(r.s) == Visible(s) && r.s.lastRecordOffset >= c.initialOffset
  }

  lemma {:induction false} FindFirst(c: Config, mode: Mode, f: Format, s: State, p: nat, records: seq<Bytes>)
    requires Synced(s) && Matches(c, f) && p == At(s) >= BlockStart(c)
    requires p <= |Visible(s)| && Visible(s)[p..] == LogBytes(f, p, records)
    ensures FindsFirst(c, f, p, records, s, Loop(c, mode, s, IDLE))
    decreases |records|
  {
    hide Loop, Synced, RecordBytes, Skipped, TrailerSize, ReturnsRecord, BlockStart, Visible, ReportedOffset;
    if records == [] {
      EndOfLog(c, mode, s);
    } else {
      var x := RecordBytes(f, p, records[0]);
      var q := p + |x|;
      var rest := LogBytes(f, q, records[1..]);
      assert Visible(s)[p..] == x + rest;
      assert x <= Visible(s)[p..];
      if p + TrailerSize(f, p) >= c.initialOffset {
        RecordWhole(c, mode, f, s, p, records[0]);
        AfterRecord(s, Loop(c, mode, s, IDLE), records[0], q, ReportedOffset(f, p));
        OffsetNotBehind(c, f, p);
        BoundaryStep(f, p, records, 1);
        NoRecords(f, q, records[1..], 0);
      } else {
        var s' := SkipRecord(c, mode, f, s, p, records[0]);
        SkippedNext(c, mode, s, s', q);
        assert Visible(s)[q..] == rest by { assert Visible(s)[q..] == Visible(s)[p..][|x|..]; }
        FindFirst(c, mode, f, s', q, records[1..]);
        SkippedSame(c, mode, s, s', q);
        FindsLater(c, f, p, records, s, s', Loop(c, mode, s, IDLE));
      }
    }
  }

  lemma SkippedSame(c: Config, mode: Mode, s: State, s': State, p: nat)
    requires Skipped(c, mode, s, s', p)
    ensures Loop(c, mode, s, IDLE) == Loop(c, mode, s', IDLE)
  {
    hide Loop;
  }

  lemma FindsLater(c: Config, f: Format, p: nat, records: seq<Bytes>, s: State, s': State, r: Result)
    requires records != [] && p + TrailerSize(f, p) < c.initialOffset && Visible(s') == Visible(s)
    requires FindsFirst(c, f, p + |RecordBytes(f, p, records[0])|, records[1..], s', r)
    ensures FindsFirst(c, f, p, records, s, r)
  {
    hide Synced, RecordBytes, TrailerSize, Visible, Boundary;
    var k := Before(f, p, records, c.initialOffset);
    if k < |records| {
      BoundaryStep(f, p, records, k + 1);
    }
  }

  // ---------- the whole reading ----------

  // No header at or after the offset lies before the block the reader starts at.
  lemma HeaderInLaterBlock(c: Config, f: Format, h: nat)
    requires HeaderFits(f, h) && h >= c.initialOffset
    ensures h >= BlockStart(c)
  {
  }

  lemma BlockStartAligned(c: Config)
    ensures BlockStart(c) % BLOCK_SIZE == 0
  {
  }

  // When the starting block is at or past the end of the log, no record qualifies.
  lemma {:induction false} NoneAfter(c: Config, f: Format, p: nat, records: seq<Bytes>)
    requires BlockStart(c) >= p + |LogBytes(f, p, records)|
    ensures Before(f, p, records, c.initialOffset) == |records|
    decreases |records|
  {
    hide Fragments, BlockStart;
    if records != [] {
      var h := p + TrailerSize(f, p);
      if h >= c.initialOffset {
        HeaderInLaterBlock(c, f, h);
      }
      NoneAfter(c, f, p + |RecordBytes(f, p, records[0])|, records[1..]);
    }
  }

  // The records before record j all start before it.
  lemma {:induction false} BeforeSkips(f: Format, p: nat, records: seq<Bytes>, offset: nat, j: nat)
    requires j <= |records|
    requires j > 0 ==> HeaderOffset(f, p, records, j - 1) < offset
    ensures Before(f, p, records, offset) == j + Before(f, Boundary(f, p, records, j), records[j..], offset)
    decreases j
  {
    hide RecordBytes, TrailerSize, Boundary;
    if j == 0 {
      NoRecords(f, p, records, 0);
      assert records[0..] == records;
    } else {
      BeforeIsExact(f, p, records, offset, j - 1);
      var q := p + |RecordBytes(f, p, records[0])|;
      BoundaryStep(f, p, records, j);
      if j > 1 {
        BoundaryStep(f, p, records, j - 1);
      }
      BeforeSkips(f, q, records[1..], offset, j - 1);
      assert records[1..][j - 1..] == records[j..];
    }
  }

  // The state after the skip to the initial block.
  lemma AfterSkip(c: Config, data: Bytes)
    requires BlockStart(c) <= |data| && c.initialOffset > 0
    ensures var k := SkipToInitialBlock(c, Initial(data, map[]));
            && k.ok && Synced(k.s) && At(k.s) == BlockStart(c) && Visible(k.s) == data
  {
    BlockStartAligned(c);
  }

  lemma SkipPastEnd(c: Config, mode: Mode, data: Bytes)
    requires BlockStart(c) > |data| && c.initialOffset > 0
    ensures ReadRecord(c, mode, Initial(data, map[])).outcome.End?
  {
    hide ReportDrop, BlockStart;
    var s := SkipToInitialBlock(c, Initial(data, map[])).s;
    var m := ReadMore(c, s);
    assert m.ok && m.s.eof && m.s.buffer == [];
    assert ReadPhysical(c, s) == ReadPhysical(c, m.s);
  }

  // The first call: everything before the first qualifying record is passed over.
  lemma FirstRead(c: Config, mode: Mode, f: Format, records: seq<Bytes>)
    requires Matches(c, f) && c.initialOffset > 0
    ensures var s := Initial(LogBytes(f, 0, records), map[]);
            FindsFirst(c, f, 0, records, s, ReadRecord(c, mode, s))
  {
    hide LogBytes, Loop, Synced, Fragments, SkipToInitialBlock, BlockStart, HeaderOffset, Skipped, Boundary, Visible;
    var data := LogBytes(f, 0, records);
    var s := Initial(data, map[]);
    var b := BlockStart(c);
    InitialSynced(data);
    if b >= |data| {
      NoneAfter(c, f, 0, records);
      if b > |data| {
        SkipPastEnd(c, mode, data);
      } else {
        AfterSkip(c, data);
        EndOfLog(c, mode, SkipToInitialBlock(c, s).s);
      }
    } else {
      AfterSkip(c, data);
      BlockStartAligned(c);
      var s1 := SkipToInitialBlock(c, s).s;
      var j, left, begin := LogAtBlock(f, 0, records, b);
      FromBlock(c, mode, f, s1, records, b, j, left, begin);
    }
  }

  // A header before the starting block is before the offset.
  lemma EarlierHeader(c: Config, f: Format, p: nat, records: seq<Bytes>, j: nat)
    requires j < |records| && HeaderOffset(f, p, records, j) < BlockStart(c)
    ensures HeaderOffset(f, p, records, j) < c.initialOffset
  {
    hide Boundary, BlockStart;
    var h := HeaderOffset(f, p, records, j);
    assert HeaderFits(f, h);
    if h >= c.initialOffset {
      HeaderInLaterBlock(c, f, h);
    }
  }

  lemma HeadersIncrease(f: Format, p: nat, records: seq<Bytes>, j: nat)
    requires 0 < j < |records|
    ensures HeaderOffset(f, p, records, j - 1) < HeaderOffset(f, p, records, j)
  {
    hide LogBytes, Fragments;
    var q := Boundary(f, p, records, j - 1);
    assert records[..j] == records[..j - 1] + [records[j - 1]];
    LogBytesAppend(f, p, records[..j - 1], [records[j - 1]]);
    OneRecordLength(f, q, records[j - 1]);
  }

  lemma OneRecordLength(f: Format, p: nat, record: Bytes)
    ensures |LogBytes(f, p, [record])| == |RecordBytes(f, p, record)| > TrailerSize(f, p)
  {
    hide Fragments;
    assert LogBytes(f, p, [record]) == RecordBytes(f, p, record) + LogBytes(f, p + |RecordBytes(f, p, record)|, []);
  }

  lemma BoundaryCompose(f: Format, p: nat, records: seq<Bytes>, j: nat, k: nat)
    requires j + k <= |records|
    ensures Boundary(f, p, records, j + k) == Boundary(f, Boundary(f, p, records, j), records[j..], k)
  {
    hide LogBytes;
    assert records[..j + k] == records[..j] + records[j..][..k];
    LogBytesAppend(f, p, records[..j], records[j..][..k]);
  }

  // Record j starts right at the starting block.
  lemma BeginHere(c: Config, mode: Mode, f: Format, s: State, records: seq<Bytes>, b: nat, j: nat)
    requires Synced(s) && Matches(c, f) && b == BlockStart(c) == At(s) && Visible(s) == LogBytes(f, 0, records)
    requires j < |records| && b >= c.initialOffset && Shape(f, 0, records, b, j, records[j], true)
    ensures FindsFirst(c, f, 0, records, s, Loop(c, mode, s, IDLE))
  {
    hide LogBytes, Loop, Synced, Fragments, Boundary, Visible, BlockStart, TrailerSize;
    BlockStartAligned(c);
    var x := Fragments(f, b, records[j], true);
    assert x <= Visible(s)[b..];
    FragmentsWhole(c, mode, f, s, IDLE, b, records[j], true);
    assert IDLE.scratch + records[j] == records[j];
    AfterRecord(s, Loop(c, mode, s, IDLE), records[j], b + |x|, b);
    if j > 0 {
      HeadersIncrease(f, 0, records, j);
      EarlierHeader(c, f, 0, records, j - 1);
    }
    BeforeSkips(f, 0, records, c.initialOffset, j);
  }

  lemma FindsAfter(c: Config, f: Format, records: seq<Bytes>, j: nat, s: State, s': State, r: Result)
    requires 0 < j <= |records| && HeaderOffset(f, 0, records, j - 1) < c.initialOffset && Visible(s') == Visible(s)
    requires FindsFirst(c, f, Boundary(f, 0, records, j), records[j..], s', r)
    ensures FindsFirst(c, f, 0, records, s, r)
  {
    hide Synced, LogBytes, TrailerSize, Visible, Boundary, Before, HeaderOffset, Loaded;
    BeforeSkips(f, 0, records, c.initialOffset, j);
    var p := Boundary(f, 0, records, j);
    var k := Before(f, p, records[j..], c.initialOffset);
    if j + k < |records| {
      BoundaryCompose(f, 0, records, j, k + 1);
    }
  }

  lemma FromBlock(
    c: Config, mode: Mode, f: Format, s: State, records: seq<Bytes>, b: nat, j: nat, left: Bytes, begin: bool)
    requires Synced(s) && Matches(c, f) && b == BlockStart(c) == At(s) && Visible(s) == LogBytes(f, 0, records)
    requires Shape(f, 0, records, b, j, left, begin)
    ensures FindsFirst(c, f, 0, records, s, Loop(c, mode, s, IDLE))
  {
    hide LogBytes, Loop, Synced, Fragments, Skipped, Boundary, Visible, BlockStart, TrailerSize, FindsFirst;
    var v := Visible(s);
    var x := Fragments(f, b, left, begin);
    var e := b + |x|;
    if begin && b >= c.initialOffset {
      BeginHere(c, mode, f, s, records, b, j);
    } else {
      BlockStartAligned(c);
      if !begin {
        EarlierHeader(c, f, 0, records, j);
      }
      assert x <= v[b..];
      NextHere(s, b);
      var s' := SkipFragments(c, mode, f, s, b, left, begin);
      SkippedNext(c, mode, s, s', e);
      SkippedSame(c, mode, s, s', e);
      assert v[e..] == LogBytes(f, e, records[j + 1..]) by { assert v[e..] == v[b..][|x|..]; }
      FindFirst(c, mode, f, s', e, records[j + 1..]);
      FindsAfter(c, f, records, j + 1, s, s', Loop(c, mode, s, IDLE));
    }
  }

  lemma NextHere(s: State, q: nat)
    requires Synced(s) && q == At(s)
    ensures NextHeader(s, q)
  {
  }

  // From any initial offset the reader returns exactly the records whose first header lies at or
  // after it, up to its first false return.
  lemma InitialOffset(c: Config, mode: Mode, f: Format, records: seq<Bytes>)
    requires Matches(c, f)
    ensures var a := ReadAll(c, mode, Initial(LogBytes(f, 0, records), map[]));
            a.records == records[Before(f, 0, records, c.initialOffset)..] && a.outcome.End?
  {
    hide LogBytes, Synced, Visible, ReadRecord, Boundary, Complete, Moved, Before, HeaderOffset;
    var s := Initial(LogBytes(f, 0, records), map[]);
    var k := Before(f, 0, records, c.initialOffset);
    if c.initialOffset == 0 {
      RoundTrip(c, mode, f, records);
      NothingBefore(f, records);
      assert records[0..] == records;
    } else {
      FirstRead(c, mode, f, records);
      var r := ReadRecord(c, mode, s);
      if k < |records| {
        InitialSynced(LogBytes(f, 0, records));
        BeforeIsExact(f, 0, records, c.initialOffset, k);
        RestOfLog(c, mode, f, r.s, records, k + 1);
        assert records[k..] == [records[k]] + records[k + 1..];
      }
    }
  }

  lemma NothingBefore(f: Format, records: seq<Bytes>)
    ensures Before(f, 0, records, 0) == 0
  {
  }

  // From the end of record k-1 on, the rest of the log.
  lemma RestOfLog(c: Config, mode: Mode, f: Format, s: State, records: seq<Bytes>, k: nat)
    requires 0 < k <= |records| && HeaderOffset(f, 0, records, k - 1) >= c.initialOffset
    requires Synced(s) && Matches(c, f) && At(s) == Boundary(f, 0, records, k) && s.lastRecordOffset >= c.initialOffset
    requires Visible(s) == LogBytes(f, 0, records)
    ensures var a := ReadAll(c, mode, s); a.records == records[k..] && a.outcome.End?
  {
    hide LogBytes, Synced, Visible, ReadAll, Complete, Moved, Reports, Fragments;
    var p := Boundary(f, 0, records, k);
    assert records == records[..k] + records[k..];
    LogBytesAppend(f, 0, records[..k], records[k..]);
    var rest := records[k..];
    var image := LogBytes(f, p, rest);
    assert Visible(s)[p..] == image;
    CompleteAll(f, p, rest);
    assert image[..|image|] == image && rest[..|rest|] == rest;
    assert records[..k] == records[..k - 1] + [records[k - 1]];
    LogBytesAppend(f, 0, records[..k - 1], [records[k - 1]]);
    OneRecordLength(f, Boundary(f, 0, records, k - 1), records[k - 1]);
    ReadAllVisible(c, mode, f, s, p, rest, |image|);
  }
}
