/**
 Following the tail of a growing log (rutil/log_reader.cc:235-296): a reader that resumes with
 UnmarkEOF, interleaved in any way with a writer that sends its bytes in pieces of any size. The
 file may end anywhere while the reader still works on earlier blocks; what is assumed is that it
 ends between two records whenever the reader runs into its end: at the end of one, or in the
 trailer after it, which the writer appends on its own (rutil/log_writer.cc:58-59).
 */
module LogTail {
  import opened Coding
  import opened LogFormat
  import opened LogReader
  import opened LogSoundness
  import opened LogParsing
  import opened LogRecords
  import opened LogTermination
  import opened LogRecovery

  datatype Event = Send(bytes: nat) | ReadOne | Unmark

  // How much of the log is in the file, the reader, and the records it has returned.
  datatype System = System(sent: nat, s: State, returned: seq<Bytes>)

  const FRESH: System := System(0, Initial([], map[]), [])

  // One event, when the writer is writing the log of `records`.
  function Apply(c: Config, mode: Mode, f: Format, records: seq<Bytes>, y: System, e: Event): System {
    match e
    case Send(bytes) =>
      var log := LogBytes(f, 0, records);
      var sent := Min(y.sent + bytes, |log|);
      if y.sent <= sent then y.(sent := sent, s := Grown(y.s, log[y.sent..sent])) else y
    case ReadOne =>
      var r := ReadRecord(c, mode, y.s);
      y.(s := r.s, returned := if r.outcome.Record? then y.returned + [r.outcome.bytes] else y.returned)
    case Unmark => y.(s := UnmarkEof(c, y.s))
  }

  // The file offset after the first k records.
  function EndOf(f: Format, records: seq<Bytes>, k: nat): nat
    requires k <= |records|
  {
    Boundary(f, 0, records, k)
  }

  // The k-th record has ended and the header of the next one has not begun. Unless `inside` holds,
  // the trailer between them is there as a whole or not at all.
  predicate InGap(f: Format, records: seq<Bytes>, k: nat, n: nat, inside: bool)
    requires k <= |records|
  {
    var p := EndOf(f, records, k);
    p <= n <= p + TrailerSize(f, p) && (inside || n == p || n == p + TrailerSize(f, p))
  }

  ghost predicate BetweenRecords(f: Format, records: seq<Bytes>, n: nat, inside: bool) {
    exists j :: 0 <= j <= |records| && InGap(f, records, j, n, inside)
  }

  // The event makes the reader meet the end of the file.
  predicate MeetsEnd(c: Config, mode: Mode, f: Format, records: seq<Bytes>, y: System, e: Event) {
    match e
    case Send(_) => false
    case ReadOne => Apply(c, mode, f, records, y, e).s.eof && !y.s.eof
    case Unmark => Apply(c, mode, f, records, y, e).s.eof
  }

  // The file ends between two records if this event makes the reader meet its end.
  ghost predicate Allowed(
    c: Config, mode: Mode, f: Format, records: seq<Bytes>, inside: bool, y: System, e: Event)
  {
    MeetsEnd(c, mode, f, records, y, e) ==> BetweenRecords(f, records, y.sent, inside)
  }

  // A run in which the file ends between two records each time the reader meets its end.
  ghost predicate Runs(
    c: Config, mode: Mode, f: Format, records: seq<Bytes>, inside: bool, y: System, events: seq<Event>, z: System)
    decreases |events|
  {
    if events == [] then y == z
    else
      && Allowed(c, mode, f, records, inside, y, events[0])
      && Runs(c, mode, f, records, inside, Apply(c, mode, f, records, y, events[0]), events[1..], z)
  }

  // The reader has returned the records from `start` on and stands right after them, before the
  // next header; when it has met the end of the file, that end was between two records.
  ghost predicate Following(c: Config, f: Format, records: seq<Bytes>, inside: bool, start: nat, y: System) {
    && start + |y.returned| <= |records| && y.returned == records[start..start + |y.returned|]
    && y.sent <= |LogBytes(f, 0, records)| && y.s.file.data == LogBytes(f, 0, records)[..y.sent]
    && Synced(y.s) && y.s.lastRecordOffset >= c.initialOffset && At(y.s) >= c.initialOffset
    && InGap(f, records, start + |y.returned|, At(y.s), inside)
    && (y.s.eof ==> BetweenRecords(f, records, y.s.file.pos, inside))
  }

  // A read that reports nothing: in absolute consistency mode a trailer that has arrived in part is
  // reported, unless what is seen of it is silent.
  predicate Quiet(c: Config, mode: Mode, f: Format, y: System, e: Event) {
    e.ReadOne? && mode.AbsoluteConsistency? && c.reporting && Loaded(y.s) && At(y.s) <= |Visible(y.s)| ==>
      var p, n := At(y.s), |Visible(y.s)| - At(y.s);
      n > TrailerSize(f, p) || Silent(f, p, n)
  }

  predicate QuietRun(c: Config, mode: Mode, f: Format, records: seq<Bytes>, y: System, events: seq<Event>)
    decreases |events|
  {
    events == [] ||
    (Quiet(c, mode, f, y, events[0])
      && QuietRun(c, mode, f, records, Apply(c, mode, f, records, y, events[0]), events[1..]))
  }

  // Reports are only added, and exactly by what is not quiet.
  predicate ReportsUnless(quiet: bool, s: State, s': State) {
    s.reports <= s'.reports && (s'.reports == s.reports <==> quiet)
  }

  // ---------- inside a trailer ----------

  // What is left of a record's bytes after a part of its trailer is what a record has from there.
  lemma TrailerTail(f: Format, p: nat, d: nat, record: Bytes)
    requires d <= TrailerSize(f, p)
    ensures TrailerSize(f, p + d) == TrailerSize(f, p) - d
    ensures RecordBytes(f, p, record)[d..] == RecordBytes(f, p + d, record)
  {
    hide Fragments, TrailerSize;
    TrailerRest(f, p, d);
    var k := TrailerSize(f, p);
    var x := Fragments(f, p + k, record, true);
    assert (ZeroBytes(k) + x)[d..] == ZeroBytes(k - d) + x;
  }

  lemma TrailerRest(f: Format, p: nat, d: nat)
    requires d <= TrailerSize(f, p)
    ensures TrailerSize(f, p + d) == TrailerSize(f, p) - d && HeaderFits(f, p + TrailerSize(f, p))
  {
  }

  lemma LogFrom(f: Format, p: nat, d: nat, records: seq<Bytes>, n: nat)
    requires d <= TrailerSize(f, p) && d <= n && records != []
    ensures d <= |LogBytes(f, p, records)| && LogBytes(f, p, records)[d..] == LogBytes(f, p + d, records)
    ensures Complete(f, p, records, n) == Complete(f, p + d, records, n - d)
  {
    hide RecordBytes;
    var x := RecordBytes(f, p, records[0]);
    TrailerTail(f, p, d, records[0]);
    HeaderInRecord(f, p, records[0]);
    var rest := LogBytes(f, p + |x|, records[1..]);
    assert (x + rest)[d..] == x[d..] + rest;
  }

  lemma BoundaryFrom(f: Format, p: nat, d: nat, records: seq<Bytes>, m: nat)
    requires d <= TrailerSize(f, p) && 0 < m <= |records|
    ensures Boundary(f, p + d, records, m) == Boundary(f, p, records, m)
  {
    hide LogBytes;
    LogFrom(f, p, d, records[..m], d);
  }

  lemma HeaderInRecord(f: Format, p: nat, record: Bytes)
    ensures TrailerSize(f, p) < |RecordBytes(f, p, record)|
  {
    hide Fragments;
  }

  // The bytes between two record ends are the log of the records between.
  lemma LogSlice(f: Format, records: seq<Bytes>, k: nat, j: nat)
    requires k <= j <= |records|
    ensures EndOf(f, records, k) <= EndOf(f, records, j) <= |LogBytes(f, 0, records)|
    ensures LogBytes(f, 0, records)[EndOf(f, records, k)..EndOf(f, records, j)]
            == LogBytes(f, EndOf(f, records, k), records[k..j])
    ensures EndOf(f, records, |records|) == |LogBytes(f, 0, records)|
  {
    hide LogBytes;
    assert records == records[..j] + records[j..];
    LogBytesAppend(f, 0, records[..j], records[j..]);
    assert records[..j] == records[..k] + records[k..j];
    LogBytesAppend(f, 0, records[..k], records[k..j]);
    assert records[..|records|] == records;
    var a := LogBytes(f, 0, records[..k]);
    var b := LogBytes(f, |a|, records[k..j]);
    Middle(a, b, LogBytes(f, |a + b|, records[j..]));
  }

  lemma Middle(a: Bytes, b: Bytes, c: Bytes)
    ensures (a + b + c)[|a|..|a| + |b|] == b
  {
    var whole := a + b + c;
    forall i | 0 <= i < |b|
      ensures whole[|a|..|a| + |b|][i] == b[i]
    {
      assert whole[|a| + i] == (a + b)[|a| + i];
    }
  }

  lemma SendFollows(
    c: Config, mode: Mode, f: Format, records: seq<Bytes>, inside: bool, start: nat, y: System, bytes: nat)
    requires Following(c, f, records, inside, start, y)
    ensures Following(c, f, records, inside, start, Apply(c, mode, f, records, y, Send(bytes)))
  {
    hide LogBytes, InGap, BetweenRecords;
    var log := LogBytes(f, 0, records);
    var z := Apply(c, mode, f, records, y, Send(bytes));
    assert log[..y.sent] + log[y.sent..z.sent] == log[..z.sent];
    GrowthKeepsLoaded(y.s, log[y.sent..z.sent]);
    GrowthKeepsSync(y.s, log[y.sent..z.sent]);
  }

  lemma GrowthKeepsSync(s: State, more: Bytes)
    requires Synced(s)
    ensures Synced(Grown(s, more)) && At(Grown(s, more)) == At(s)
  {
    GrowthKeepsLoaded(s, more);
  }

  // The arithmetic behind resumption: what is consumed, buffered and still missing make a block.
  lemma UnmarkSynced(c: Config, s: State)
    requires Synced(s)
    ensures var u := UnmarkEof(c, s);
            && Synced(u) && At(u) == At(s) && u.file.data == s.file.data
            && u.reports == s.reports && u.lastRecordOffset == s.lastRecordOffset
            && Visible(u) == s.file.data
    ensures s.eofOffset != 0 ==> At(s) % BLOCK_SIZE + |s.buffer| + (BLOCK_SIZE - s.eofOffset) == BLOCK_SIZE
  {
    hide Loaded, Read, UnmarkEof;
    UnmarkIs(c, s);
    SyncedIsLoaded(s);
    UnmarkKeepsLoaded(c, s);
    UnmarkSyncs(c, s);
    var d := s.file.data;
    assert d[..|d|] == d;
  }

  lemma UnmarkSyncs(c: Config, s: State)
    requires Synced(s)
    ensures Synced(UnmarkEof(c, s))
    ensures s.eofOffset != 0 ==> At(s) % BLOCK_SIZE + |s.buffer| == s.eofOffset
  {
    hide Loaded, Read, UnmarkEof;
    UnmarkIs(c, s);
    SyncedIsLoaded(s);
    UnmarkKeepsLoaded(c, s);
    var p, q := At(s), s.file.pos;
    if s.eofOffset != 0 {
      assert s.eof && q % BLOCK_SIZE == s.eofOffset;
      assert p / BLOCK_SIZE == q / BLOCK_SIZE;
    }
  }

  // What resuming does when no read fails.
  lemma UnmarkIs(c: Config, s: State)
    requires !s.readError && s.file.faults == map[]
    ensures var remaining := BLOCK_SIZE - s.eofOffset;
            var k := Min(remaining, |s.file.data| - s.file.pos);
            var more := s.file.data[s.file.pos..s.file.pos + k];
            UnmarkEof(c, s) ==
            if s.eofOffset == 0 then s.(eof := false)
            else s.(file := s.file.(pos := s.file.pos + k, calls := s.file.calls + 1), buffer := s.buffer + more,
                    endOfBuffer := s.endOfBuffer + k, eof := k < remaining,
                    eofOffset := if k < remaining then s.eofOffset + k else 0)
  {
  }

  lemma UnmarkFollows(c: Config, mode: Mode, f: Format, records: seq<Bytes>, inside: bool, start: nat, y: System)
    requires Following(c, f, records, inside, start, y) && Allowed(c, mode, f, records, inside, y, Unmark)
    ensures var z := Apply(c, mode, f, records, y, Unmark);
            Following(c, f, records, inside, start, z) && z.s.reports == y.s.reports
  {
    hide LogBytes, UnmarkEof, Synced, InGap, BetweenRecords;
    UnmarkSynced(c, y.s);
    var u := UnmarkEof(c, y.s);
    SeesAll(u);
  }

  lemma SeesAll(s: State)
    requires Synced(s) && Visible(s) == s.file.data
    ensures s.eof ==> s.file.pos == |s.file.data|
  {
  }

  // The reader's view of the log ends where its file ends, or at the end it has met.
  lemma Sees(c: Config, f: Format, records: seq<Bytes>, inside: bool, start: nat, y: System)
    requires Following(c, f, records, inside, start, y)
    ensures At(y.s) <= |Visible(y.s)| <= |LogBytes(f, 0, records)|
    ensures Visible(y.s)[At(y.s)..] == LogBytes(f, 0, records)[At(y.s)..|Visible(y.s)|]
    ensures y.s.eof ==> BetweenRecords(f, records, |Visible(y.s)|, inside)
    ensures !y.s.eof ==> |Visible(y.s)| == y.sent
  {
    hide LogBytes, InGap, BetweenRecords;
  }

  // An offset between two records that is not before the end of k records and before that of
  // k + 1 is in the gap after k.
  lemma NoEndBetween(f: Format, records: seq<Bytes>, inside: bool, k: nat, n: nat)
    requires k < |records| && BetweenRecords(f, records, n, inside)
    requires EndOf(f, records, k) <= n < EndOf(f, records, k + 1)
    ensures InGap(f, records, k, n, inside)
  {
    hide EndOf, LogBytes, RecordBytes, TrailerSize;
    var j :| 0 <= j <= |records| && InGap(f, records, j, n, inside);
    if j < k {
      RecordInLog(f, records, j);
      HeaderInRecord(f, EndOf(f, records, j), records[j]);
      LogSlice(f, records, j + 1, k);
    } else if j > k {
      LogSlice(f, records, k + 1, j);
    }
  }

  // The next record as the reader will find it, from where it stands in the gap before it.
  lemma RecordAhead(f: Format, records: seq<Bytes>, inside: bool, k: nat, a: nat)
    requires k < |records| && InGap(f, records, k, a, inside)
    ensures var x := RecordBytes(f, a, records[k]);
            && EndOf(f, records, k + 1) == a + |x| <= |LogBytes(f, 0, records)|
            && LogBytes(f, 0, records)[a..a + |x|] == x
    ensures a + TrailerSize(f, a) == EndOf(f, records, k) + TrailerSize(f, EndOf(f, records, k))
  {
    hide RecordBytes, LogBytes, EndOf;
    var p := EndOf(f, records, k);
    RecordInLog(f, records, k);
    TrailerTail(f, p, a - p, records[k]);
    HeaderInRecord(f, p, records[k]);
    DropOf(LogBytes(f, 0, records), p, EndOf(f, records, k + 1), a);
  }

  lemma DropOf(log: Bytes, p: nat, n: nat, a: nat)
    requires p <= a <= n <= |log|
    ensures log[p..n][a - p..] == log[a..n]
  {
    var x, y := log[p..n], log[a..n];
    forall i | 0 <= i < n - a
      ensures x[a - p..][i] == y[i]
    {
      assert x[a - p + i] == log[a + i];
    }
  }

  lemma ReadReturns(
    c: Config, mode: Mode, f: Format, records: seq<Bytes>, inside: bool, start: nat, y: System, p: nat, k: nat)
    requires Following(c, f, records, inside, start, y) && Matches(c, f)
    requires Allowed(c, mode, f, records, inside, y, ReadOne)
    requires k == start + |y.returned| < |records| && p == At(y.s)
    requires p + |RecordBytes(f, p, records[k])| <= |Visible(y.s)|
    ensures var z := Apply(c, mode, f, records, y, ReadOne);
            Following(c, f, records, inside, start, z) && z.s.reports == y.s.reports
  {
    hide LogBytes, Synced, EndOf, Loop, Moved, RecordBytes, ReturnsRecord, ReadPhysical, BetweenRecords, Visible,
         ReadRecord, InGap, TrailerSize;
    var s, v, log := y.s, Visible(y.s), LogBytes(f, 0, records);
    Sees(c, f, records, inside, start, y);
    RecordAhead(f, records, inside, k, p);
    var x := RecordBytes(f, p, records[k]);
    TakeOf(log, p, |v|, |x|);
    Read1(c, mode, s);
    RecordWhole(c, mode, f, s, p, records[k]);
    var r := Loop(c, mode, s, IDLE);
    AfterRecord(s, r, records[k], p + |x|, ReportedOffset(f, p));
    EofSame(s, r.s);
    AtEndOf(f, records, inside, k + 1);
    assert y.returned + [records[k]] == records[start..k + 1];
  }

  lemma QuietWhenWhole(c: Config, mode: Mode, f: Format, y: System)
    requires Loaded(y.s) && |Visible(y.s)| > At(y.s) + TrailerSize(f, At(y.s))
    ensures Quiet(c, mode, f, y, ReadOne)
  {
    hide TrailerSize;
  }

  lemma AtEndOf(f: Format, records: seq<Bytes>, inside: bool, k: nat)
    requires k <= |records|
    ensures InGap(f, records, k, EndOf(f, records, k), inside)
  {
    hide EndOf;
  }

  lemma TakeOf(log: Bytes, p: nat, n: nat, m: nat)
    requires p + m <= n <= |log|
    ensures log[p..n][..m] == log[p..p + m]
  {
    var a, b := log[p..n], log[p..p + m];
    forall i | 0 <= i < m
      ensures a[..m][i] == b[i]
    {
      assert a[i] == log[p + i];
    }
  }

  lemma EofSame(s: State, s': State)
    requires Synced(s) && Synced(s') && Visible(s') == Visible(s) && s'.file.data == s.file.data
    ensures s'.eof ==> s'.file.pos == |Visible(s)| && (!s.eof ==> s'.file.pos == |s.file.data|)
  {
  }

  lemma RecordInLog(f: Format, records: seq<Bytes>, k: nat)
    requires k < |records|
    ensures var p := EndOf(f, records, k);
            var x := RecordBytes(f, p, records[k]);
            && EndOf(f, records, k + 1) == p + |x| <= |LogBytes(f, 0, records)|
            && LogBytes(f, 0, records)[p..p + |x|] == x
  {
    hide RecordBytes, LogBytes;
    LogSlice(f, records, k, k + 1);
    assert records[k..k + 1] == [records[k]];
    OneRecord(f, EndOf(f, records, k), records[k]);
  }

  lemma OneRecord(f: Format, p: nat, record: Bytes)
    ensures LogBytes(f, p, [record]) == RecordBytes(f, p, record)
  {
    hide RecordBytes;
    assert LogBytes(f, p, [record]) == RecordBytes(f, p, record) + [];
  }

  // Nothing more of the log is visible, or no more than some of the trailer.
  lemma ReadEnds(c: Config, mode: Mode, f: Format, records: seq<Bytes>, inside: bool, start: nat, y: System)
    requires Following(c, f, records, inside, start, y) && Allowed(c, mode, f, records, inside, y, ReadOne)
    requires var r := Loop(c, mode, y.s, IDLE);
             && Ends(y.s, r) && Reports(c, mode, y.s, r.s, Silent(f, At(y.s), |Visible(y.s)| - At(y.s)))
    requires InGap(f, records, start + |y.returned|, |Visible(y.s)|, inside)
    requires |Visible(y.s)| <= At(y.s) + TrailerSize(f, At(y.s))
    ensures var z := Apply(c, mode, f, records, y, ReadOne);
            && Following(c, f, records, inside, start, z)
            && ReportsUnless(Quiet(c, mode, f, y, ReadOne), y.s, z.s)
  {
    hide LogBytes, Synced, EndOf, Loop, Ends, ReadPhysical, Visible, InGap, BetweenRecords, TrailerSize, Silent;
    Sees(c, f, records, inside, start, y);
    SyncedIsLoaded(y.s);
    Read1(c, mode, y.s);
    EndsHere(y.s, Loop(c, mode, y.s, IDLE));
    IsBetween(f, records, inside, start + |y.returned|, |Visible(y.s)|);
  }

  lemma IsBetween(f: Format, records: seq<Bytes>, inside: bool, k: nat, n: nat)
    requires k <= |records| && InGap(f, records, k, n, inside)
    ensures BetweenRecords(f, records, n, inside)
  {
    hide InGap;
  }

  lemma EndsHere(s: State, r: Result)
    requires Ends(s, r) && Synced(s)
    ensures Synced(r.s) && At(r.s) == r.s.file.pos == |Visible(s)| && r.s.file.data == s.file.data
    ensures r.s.lastRecordOffset == s.lastRecordOffset && r.s.eof && r.outcome.End?
  {
  }

  lemma SyncedIsLoaded(s: State)
    requires Synced(s)
    ensures Loaded(s) && |Visible(s)| <= |s.file.data|
  {
  }

  // What one read does: the next record if all of it is visible, or nothing.
  lemma ReadFollows(c: Config, mode: Mode, f: Format, records: seq<Bytes>, inside: bool, start: nat, y: System)
    requires Following(c, f, records, inside, start, y) && Matches(c, f)
    requires Allowed(c, mode, f, records, inside, y, ReadOne)
    ensures var z := Apply(c, mode, f, records, y, ReadOne);
            && Following(c, f, records, inside, start, z)
            && ReportsUnless(Quiet(c, mode, f, y, ReadOne), y.s, z.s)
  {
    hide LogBytes, Synced, EndOf, RecordBytes, BetweenRecords, Visible, Loop, ReadPhysical, Ends, Reports, InGap,
         TrailerSize, Quiet;
    Sees(c, f, records, inside, start, y);
    SyncedIsLoaded(y.s);
    var k, p, v, log := start + |y.returned|, At(y.s), Visible(y.s), LogBytes(f, 0, records);
    if k == |records| {
      LastGap(f, records, inside, p, |v|);
      NothingLeft(c, mode, y.s);
      SilentEnd(c, mode, f, p, y.s, Loop(c, mode, y.s, IDLE).s);
      ReadEnds(c, mode, f, records, inside, start, y);
    } else {
      RecordAhead(f, records, inside, k, p);
      var x := RecordBytes(f, p, records[k]);
      if p + |x| <= |v| {
        ReadReturns(c, mode, f, records, inside, start, y, p, k);
        HeaderInRecord(f, p, records[k]);
        QuietWhenWhole(c, mode, f, y);
      } else {
        // The cut record is met as the end of the file, which is between two records.
        TakeOf(log, p, p + |x|, |v| - p);
        RecordCut(c, mode, f, y.s, p, records[k]);
        CutInGap(c, mode, f, records, inside, start, y);
        ReadEnds(c, mode, f, records, inside, start, y);
      }
    }
  }

  lemma CutInGap(c: Config, mode: Mode, f: Format, records: seq<Bytes>, inside: bool, start: nat, y: System)
    requires Following(c, f, records, inside, start, y) && Allowed(c, mode, f, records, inside, y, ReadOne)
    requires Ends(y.s, Loop(c, mode, y.s, IDLE)) && start + |y.returned| < |records|
    requires |Visible(y.s)| < EndOf(f, records, start + |y.returned| + 1)
    ensures InGap(f, records, start + |y.returned|, |Visible(y.s)|, inside)
    ensures |Visible(y.s)| <= At(y.s) + TrailerSize(f, At(y.s))
  {
    hide LogBytes, Synced, EndOf, BetweenRecords, Visible, Loop, ReadPhysical, Ends, TrailerSize, RecordBytes;
    Sees(c, f, records, inside, start, y);
    SyncedIsLoaded(y.s);
    Read1(c, mode, y.s);
    EndsHere(y.s, Loop(c, mode, y.s, IDLE));
    NoEndBetween(f, records, inside, start + |y.returned|, |Visible(y.s)|);
    RecordAhead(f, records, inside, start + |y.returned|, At(y.s));
  }

  // After the last record there is no trailer to stand in.
  lemma LastGap(f: Format, records: seq<Bytes>, inside: bool, p: nat, n: nat)
    requires InGap(f, records, |records|, p, inside) && p <= n <= |LogBytes(f, 0, records)|
    ensures p == n == |LogBytes(f, 0, records)|
  {
    hide LogBytes, TrailerSize;
    LogSlice(f, records, |records|, |records|);
  }

  // In every such run the reader returns the written records in order, none twice and none left
  // out. It reports something exactly when a read in absolute consistency mode is not quiet, which
  // takes an end inside a trailer.
  lemma {:induction false} RunFollows(
    c: Config, mode: Mode, f: Format, records: seq<Bytes>, inside: bool, start: nat, y: System, events: seq<Event>,
    z: System)
    requires Matches(c, f) && Following(c, f, records, inside, start, y)
    requires Runs(c, mode, f, records, inside, y, events, z)
    ensures Following(c, f, records, inside, start, z)
    ensures ReportsUnless(QuietRun(c, mode, f, records, y, events), y.s, z.s)
    ensures !inside || !mode.AbsoluteConsistency? || !c.reporting ==> QuietRun(c, mode, f, records, y, events)
    decreases |events|
  {
    hide Apply, Following, Allowed, Quiet;
    if events != [] {
      var e := events[0];
      match e {
        case Send(bytes) =>
          SendFollows(c, mode, f, records, inside, start, y, bytes);
          SendSilent(c, mode, f, records, y, bytes);
        case ReadOne => ReadFollows(c, mode, f, records, inside, start, y);
        case Unmark => UnmarkFollows(c, mode, f, records, inside, start, y);
      }
      QuietWhole(c, mode, f, records, inside, start, y, e);
      RunFollows(c, mode, f, records, inside, start, Apply(c, mode, f, records, y, e), events[1..], z);
    }
  }

  // Only an end inside a trailer can make a read report, and only in absolute consistency mode.
  lemma QuietWhole(
    c: Config, mode: Mode, f: Format, records: seq<Bytes>, inside: bool, start: nat, y: System, e: Event)
    requires Matches(c, f) && Following(c, f, records, inside, start, y) && Allowed(c, mode, f, records, inside, y, e)
    ensures !inside || !mode.AbsoluteConsistency? || !c.reporting || !e.ReadOne? ==> Quiet(c, mode, f, y, e)
  {
    hide LogBytes, Synced, EndOf, RecordBytes, BetweenRecords, Visible, Loop, ReadPhysical, Ends, Reports, InGap,
         TrailerSize;
    var k := start + |y.returned|;
    if !inside && e.ReadOne? {
      Sees(c, f, records, inside, start, y);
      SyncedIsLoaded(y.s);
      var p, v, log := At(y.s), Visible(y.s), LogBytes(f, 0, records);
      if k == |records| {
        LastGap(f, records, inside, p, |v|);
      } else {
        RecordAhead(f, records, inside, k, p);
        var x := RecordBytes(f, p, records[k]);
        HeaderInRecord(f, p, records[k]);
        if |v| < p + |x| {
          TakeOf(log, p, p + |x|, |v| - p);
          RecordCut(c, mode, f, y.s, p, records[k]);
          CutInGap(c, mode, f, records, inside, start, y);
          WholeGap(f, records, k, p, |v|);
        }
      }
    }
  }

  lemma WholeGap(f: Format, records: seq<Bytes>, k: nat, p: nat, n: nat)
    requires k <= |records| && p <= n && InGap(f, records, k, p, false) && InGap(f, records, k, n, false)
    ensures Silent(f, p, n - p)
  {
    hide EndOf;
  }

  lemma SendSilent(c: Config, mode: Mode, f: Format, records: seq<Bytes>, y: System, bytes: nat)
    ensures Apply(c, mode, f, records, y, Send(bytes)).s.reports == y.s.reports
  {
  }

  lemma FreshFollows(c: Config, f: Format, records: seq<Bytes>, inside: bool)
    requires c.initialOffset == 0
    ensures Following(c, f, records, inside, 0, FRESH)
  {
    hide RecordBytes;
    assert LogBytes(f, 0, records[..0]) == [];
  }

  // The records complete within n bytes, split after the first k.
  lemma {:induction false} CompleteSplit(f: Format, p: nat, records: seq<Bytes>, k: nat, n: nat)
    requires k <= |records| && |LogBytes(f, p, records[..k])| <= n
    ensures var q := Boundary(f, p, records, k);
            Complete(f, p, records, n) == k + Complete(f, q, records[k..], n - (q - p))
    decreases k
  {
    hide RecordBytes;
    if k == 0 {
      assert records[..0] == [] && records[0..] == records;
    } else {
      BoundaryStep(f, p, records, k);
      var x := RecordBytes(f, p, records[0]);
      assert records[..k][1..] == records[1..][..k - 1];
      assert records[1..][k - 1..] == records[k..];
      CompleteSplit(f, p + |x|, records[1..], k - 1, n - |x|);
    }
  }

  // Where a cut record that a reader meets last begins, for the reader.
  function CutAt(f: Format, records: seq<Bytes>, z: System): (q: nat)
    requires Loaded(z.s)
  {
    Max(At(z.s), EndOf(f, records, Complete(f, 0, records, z.sent)))
  }

  // Whatever the interleaving: after a final resumption the reader has delivered, together with
  // what it returned before, exactly the records that the final file holds completely. What the file
  // holds beyond them is reported only in absolute consistency mode, unless it is silent.
  lemma TailFollowing(
    c: Config, mode: Mode, f: Format, records: seq<Bytes>, inside: bool, start: nat, y: System, events: seq<Event>,
    z: System)
    requires Matches(c, f) && Following(c, f, records, inside, start, y)
    requires Runs(c, mode, f, records, inside, y, events, z)
    ensures var rest := ReadAll(c, mode, UnmarkEof(c, z.s));
            var k := Complete(f, 0, records, z.sent);
            && ReportsUnless(QuietRun(c, mode, f, records, y, events), y.s, z.s) && rest.outcome.End?
            && (!inside ==> QuietRun(c, mode, f, records, y, events))
            && z.sent <= |LogBytes(f, 0, records)| && z.s.file.data == LogBytes(f, 0, records)[..z.sent]
            && start <= k && z.returned + rest.records == records[start..k]
            && Loaded(z.s) && CutAt(f, records, z) <= z.sent
            && Reports(c, mode, z.s, rest.s, Silent(f, CutAt(f, records, z), z.sent - CutAt(f, records, z)))
  {
    hide LogBytes, Following, ReadAll, UnmarkEof, Complete, CutAt, Reports, Silent, QuietRun;
    RunFollows(c, mode, f, records, inside, start, y, events, z);
    FollowingFacts(c, f, records, inside, start, z);
    RestOfFile(c, mode, f, records, inside, start, z);
  }

  // From the start of the log these are the records that one pass over the final file delivers.
  lemma TailFromStart(
    c: Config, mode: Mode, f: Format, records: seq<Bytes>, inside: bool, events: seq<Event>, z: System)
    requires Matches(c, f) && c.initialOffset == 0 && Runs(c, mode, f, records, inside, FRESH, events, z)
    ensures var rest := ReadAll(c, mode, UnmarkEof(c, z.s));
            && (z.s.reports == [] <==> QuietRun(c, mode, f, records, FRESH, events))
            && (!inside ==> z.s.reports == [])
            && z.returned + rest.records == ReadAll(c, mode, Initial(z.s.file.data, map[])).records
            && rest.outcome.End?
            && (BetweenRecords(f, records, z.sent, false) && !inside ==> rest.s.reports == [])
  {
    hide LogBytes, Following, ReadAll, UnmarkEof, Complete, BetweenRecords, CutAt, QuietRun, Silent;
    FreshFollows(c, f, records, inside);
    TailFollowing(c, mode, f, records, inside, 0, FRESH, events, z);
    CrashPrefix(c, mode, f, records, z.sent);
    assert Min(z.sent, |LogBytes(f, 0, records)|) == z.sent;
    assert records[0..Complete(f, 0, records, z.sent)] == records[..Complete(f, 0, records, z.sent)];
    if BetweenRecords(f, records, z.sent, false) && !inside {
      RunFollows(c, mode, f, records, inside, 0, FRESH, events, z);
      WholeIsSilent(c, f, records, 0, z);
    }
  }

  lemma FollowingFacts(c: Config, f: Format, records: seq<Bytes>, inside: bool, start: nat, y: System)
    requires Following(c, f, records, inside, start, y)
    ensures y.sent <= |LogBytes(f, 0, records)| && y.s.file.data == LogBytes(f, 0, records)[..y.sent]
    ensures Synced(y.s) && Loaded(y.s)
  {
    hide LogBytes, InGap, BetweenRecords;
  }

  // From a following state, resuming and reading on delivers what the file still holds.
  lemma RestOfFile(c: Config, mode: Mode, f: Format, records: seq<Bytes>, inside: bool, start: nat, y: System)
    requires Matches(c, f) && Following(c, f, records, inside, start, y)
    ensures var rest := ReadAll(c, mode, UnmarkEof(c, y.s));
            && rest.outcome.End? && start <= Complete(f, 0, records, y.sent)
            && y.returned + rest.records == records[start..Complete(f, 0, records, y.sent)]
            && Loaded(y.s) && CutAt(f, records, y) <= y.sent
            && Reports(c, mode, y.s, rest.s, Silent(f, CutAt(f, records, y), y.sent - CutAt(f, records, y)))
  {
    hide LogBytes, ReadAll, UnmarkEof, Synced, Complete, BetweenRecords, Visible, EndOf, Silent, InGap;
    UnmarkSynced(c, y.s);
    Sees(c, f, records, inside, start, y);
    SyncedIsLoaded(y.s);
    var k := start + |y.returned|;
    WiderGap(f, records, inside, k, At(y.s));
    RestFrom(c, mode, f, records, UnmarkEof(c, y.s), k, y.sent);
    var m := Complete(f, 0, records, y.sent);
    assert records[start..k] + records[k..m] == records[start..m];
  }

  lemma WiderGap(f: Format, records: seq<Bytes>, inside: bool, k: nat, n: nat)
    requires k <= |records| && InGap(f, records, k, n, inside)
    ensures InGap(f, records, k, n, true)
  {
    hide EndOf;
  }

  lemma RestFrom(c: Config, mode: Mode, f: Format, records: seq<Bytes>, s: State, k: nat, n: nat)
    requires Matches(c, f) && Synced(s) && k <= |records| && n <= |LogBytes(f, 0, records)|
    requires Visible(s) == LogBytes(f, 0, records)[..n] && s.lastRecordOffset >= c.initialOffset
    requires c.initialOffset <= At(s) <= n && InGap(f, records, k, At(s), true)
    ensures var rest := ReadAll(c, mode, s);
            var m := Complete(f, 0, records, n);
            var q := Max(At(s), EndOf(f, records, m));
            && rest.outcome.End? && k <= m && rest.records == records[k..m]
            && q <= n && Reports(c, mode, s, rest.s, Silent(f, q, n - q))
  {
    hide LogBytes, ReadAll, Synced, Complete, Visible, Silent, Reports, Ends, EndOf, Boundary, TrailerSize;
    SyncedIsLoaded(s);
    var a, rest := At(s), records[k..];
    RestSplit(f, records, k, a, n);
    ReadAllVisible(c, mode, f, s, a, rest, n - a);
    var m := Complete(f, a, rest, n - a);
    assert rest[..m] == records[k..k + m];
    EndsIsEnd(s.(lastRecordOffset := ReadAll(c, mode, s).s.lastRecordOffset), ReadAll(c, mode, s));
  }

  // The log from inside a gap, the records it completes and the end of the last of them.
  lemma RestSplit(f: Format, records: seq<Bytes>, k: nat, a: nat, n: nat)
    requires k <= |records| && InGap(f, records, k, a, true) && a <= n <= |LogBytes(f, 0, records)|
    ensures var rest := records[k..];
            var m := Complete(f, a, rest, n - a);
            && n - a <= |LogBytes(f, a, rest)| && LogBytes(f, 0, records)[..n][a..] == LogBytes(f, a, rest)[..n - a]
            && Complete(f, 0, records, n) == k + m
            && Boundary(f, a, rest, m) == Max(a, EndOf(f, records, k + m))
  {
    hide LogBytes, Complete, TrailerSize;
    var log, p, rest := LogBytes(f, 0, records), EndOf(f, records, k), records[k..];
    LogSlice(f, records, k, |records|);
    assert records[k..|records|] == rest && log[p..|log|] == log[p..];
    CompleteSplit(f, 0, records, k, n);
    if rest == [] {
      LastGap(f, records, true, a, n);
      NoRecords(f, a, rest, 0);
    } else {
      LogFrom(f, p, a - p, rest, n - p);
      RestEnd(f, records, k, a, Complete(f, a, rest, n - a));
    }
    Cut(log, p, a, n);
  }

  lemma Cut(log: Bytes, p: nat, a: nat, n: nat)
    requires p <= a <= n <= |log|
    ensures log[..n][a..] == log[p..][a - p..][..n - a]
  {
  }

  lemma RestEnd(f: Format, records: seq<Bytes>, k: nat, a: nat, m: nat)
    requires k < |records| && InGap(f, records, k, a, true) && m <= |records| - k
    ensures Boundary(f, a, records[k..], m) == Max(a, EndOf(f, records, k + m))
  {
    hide LogBytes, TrailerSize;
    var p, rest := EndOf(f, records, k), records[k..];
    if m > 0 {
      LogSlice(f, records, k, k + m);
      assert records[k..k + m] == rest[..m];
      BoundaryFrom(f, p, a - p, rest, m);
      RecordAhead(f, records, true, k, a);
      LogSlice(f, records, k + 1, k + m);
    } else {
      NoRecords(f, a, rest, 0);
    }
  }

  lemma EndsIsEnd(s: State, a: ReadAllResult)
    requires Ends(s, Result(a.outcome, a.s))
    ensures a.outcome.End?
  {
  }

  lemma SilentReports(c: Config, mode: Mode, f: Format, p: nat, s: State, s': State)
    requires Reports(c, mode, s, s', Silent(f, p, 0))
    ensures s'.reports == s.reports
  {
  }

  // A reader that never met an end inside a trailer, and a file that does not end inside one.
  lemma WholeIsSilent(c: Config, f: Format, records: seq<Bytes>, start: nat, z: System)
    requires Following(c, f, records, false, start, z) && BetweenRecords(f, records, z.sent, false)
    ensures Loaded(z.s) && CutAt(f, records, z) <= z.sent ==>
              Silent(f, CutAt(f, records, z), z.sent - CutAt(f, records, z))
  {
    hide LogBytes, Complete, RecordBytes, EndOf, TrailerSize, Synced, Visible, InGap;
    var n, k := z.sent, start + |z.returned|;
    var m := Complete(f, 0, records, n);
    if Loaded(z.s) && CutAt(f, records, z) <= n {
      var a := At(z.s);
      WiderGap(f, records, false, k, a);
      RestSplit(f, records, k, a, n);
      EndInGap(f, records, n);
      if m > k {
        RecordAhead(f, records, false, k, a);
        LogSlice(f, records, k + 1, m);
        AtEndOf(f, records, false, m);
        WholeGap(f, records, m, EndOf(f, records, m), n);
      } else {
        GapStart(f, records, k, a);
        WholeGap(f, records, k, a, n);
      }
    }
  }

  lemma GapStart(f: Format, records: seq<Bytes>, k: nat, n: nat)
    requires k <= |records| && InGap(f, records, k, n, false)
    ensures EndOf(f, records, k) <= n
  {
    hide EndOf, TrailerSize;
  }

  // A file that ends between two records ends after the last record that it holds completely.
  lemma EndInGap(f: Format, records: seq<Bytes>, n: nat)
    requires BetweenRecords(f, records, n, false) && n <= |LogBytes(f, 0, records)|
    ensures InGap(f, records, Complete(f, 0, records, n), n, false)
  {
    hide LogBytes, Complete, TrailerSize, BetweenRecords;
    var m := Complete(f, 0, records, n);
    CompleteIsMaximal(f, 0, records, n);
    if m < |records| {
      NoEndBetween(f, records, false, m, n);
    } else {
      LogSlice(f, records, m, m);
    }
  }
}
