/**
 What the log is for: reading back what was written, after a crash at any byte and while the
 writer is still appending (rutil/log_reader.cc, rutil/log_writer.cc).
 */
module LogRecovery {
  import opened Coding
  import opened LogFormat
  import opened LogReader
  import opened LogSoundness
  import opened LogParsing
  import opened LogRecords
  import opened LogTermination

  // The number of records whose bytes, from file position p on, lie within the next n bytes.
  function Complete(f: Format, p: nat, records: seq<Bytes>, n: nat): (k: nat)
    ensures k <= |records|
    decreases |records|
  {
    if records == [] then 0
    else
      var b := |RecordBytes(f, p, records[0])|;
      if n < b then 0 else 1 + Complete(f, p + b, records[1..], n - b)
  }

  // It is the largest k for which the first k records fit in n bytes.
  lemma {:induction false} CompleteIsMaximal(f: Format, p: nat, records: seq<Bytes>, n: nat)
    ensures var k := Complete(f, p, records, n);
            && |LogBytes(f, p, records[..k])| <= n
            && (k < |records| ==> n < |LogBytes(f, p, records[..k + 1])|)
    decreases |records|
  {
    hide RecordBytes;
    if records != [] {
      var x := RecordBytes(f, p, records[0]);
      var k := Complete(f, p, records, n);
      assert records[..1][1..] == [];
      assert LogBytes(f, p, records[..1]) == x + [];
      if n >= |x| {
        CompleteIsMaximal(f, p + |x|, records[1..], n - |x|);
        assert records[..k][1..] == records[1..][..k - 1];
        if k < |records| {
          assert records[..k + 1][1..] == records[1..][..k];
        }
      }
    }
  }

  ghost predicate ReadsPrefix(c: Config, mode: Mode, s: State, a: ReadAllResult, records: seq<Bytes>, silent: bool) {
    && a.records == records
    && Ends(s.(lastRecordOffset := a.s.lastRecordOffset), Result(a.outcome, a.s))
    && Reports(c, mode, s, a.s, silent)
  }

  lemma Read1(c: Config, mode: Mode, s: State)
    requires s.lastRecordOffset >= c.initialOffset
    ensures ReadRecord(c, mode, s) == Loop(c, mode, s, IDLE)
  {
  }

  lemma AfterRecord(s: State, r: Result, record: Bytes, q: nat, offset: nat)
    requires ReturnsRecord(s, r, record, q, offset)
    ensures Synced(r.s) && At(r.s) == q && Visible(r.s) == Visible(s) && r.s.reports == s.reports
    ensures r.outcome == Record(record) && r.s.lastRecordOffset == offset && r.s.file.data == s.file.data
  {
  }

  // Reading stops here.
  lemma ReadAllStops(c: Config, mode: Mode, s: State, silent: bool)
    requires s.lastRecordOffset >= c.initialOffset
    requires Ends(s, Loop(c, mode, s, IDLE)) && Reports(c, mode, s, Loop(c, mode, s, IDLE).s, silent)
    ensures ReadsPrefix(c, mode, s, ReadAll(c, mode, s), [], silent)
  {
    hide Loop, Synced, Visible;
  }

  // One record, and then the rest.
  lemma ReadAllGoesOn(
    c: Config, mode: Mode, s: State, record: Bytes, q: nat, offset: nat, records: seq<Bytes>, silent: bool)
    requires s.lastRecordOffset >= c.initialOffset
    requires ReturnsRecord(s, Loop(c, mode, s, IDLE), record, q, offset)
    requires var s' := Loop(c, mode, s, IDLE).s; ReadsPrefix(c, mode, s', ReadAll(c, mode, s'), records, silent)
    ensures ReadsPrefix(c, mode, s, ReadAll(c, mode, s), [record] + records, silent)
  {
    hide Loop, Synced, ReadRecord;
    Read1(c, mode, s);
    var r := ReadRecord(c, mode, s);
    assert ReadAll(c, mode, s).records == [record] + ReadAll(c, mode, r.s).records;
  }

  // The log bytes of the first records, and of one more.
  lemma LogSplit(f: Format, p: nat, records: seq<Bytes>, n: nat)
    requires records != [] && n <= |LogBytes(f, p, records)|
    ensures var x := RecordBytes(f, p, records[0]);
            var rest := LogBytes(f, p + |x|, records[1..]);
            var v := LogBytes(f, p, records)[..n];
            if n < |x| then v < x else x <= v && n - |x| <= |rest| && v[|x|..] == rest[..n - |x|]
  {
    hide RecordBytes;
    var x := RecordBytes(f, p, records[0]);
    var rest := LogBytes(f, p + |x|, records[1..]);
    assert LogBytes(f, p, records) == x + rest;
    assert n < |x| ==> (x + rest)[..n] == x[..n];
    assert n >= |x| ==> (x + rest)[..n] == x + rest[..n - |x|];
  }

  // The end of the first k records.
  function Boundary(f: Format, p: nat, records: seq<Bytes>, k: nat): (q: nat)
    requires k <= |records|
    ensures q >= p
  {
    p + |LogBytes(f, p, records[..k])|
  }

  lemma BoundaryStep(f: Format, p: nat, records: seq<Bytes>, k: nat)
    requires 0 < k <= |records|
    ensures Boundary(f, p, records, k) == Boundary(f, p + |RecordBytes(f, p, records[0])|, records[1..], k - 1)
    ensures records[..k] == [records[0]] + records[1..][..k - 1]
  {
    hide RecordBytes;
    assert records[..k][1..] == records[1..][..k - 1];
  }

  // From a record boundary, with the first n bytes of the rest of the log visible.
  lemma {:induction false} ReadAllVisible(
    c: Config, mode: Mode, f: Format, s: State, p: nat, records: seq<Bytes>, n: nat)
    requires Synced(s) && Matches(c, f) && p == At(s) >= c.initialOffset && s.lastRecordOffset >= c.initialOffset
    requires n <= |LogBytes(f, p, records)| && p <= |Visible(s)| && Visible(s)[p..] == LogBytes(f, p, records)[..n]
    ensures var k := Complete(f, p, records, n);
            var q := Boundary(f, p, records, k);
            q <= p + n && ReadsPrefix(c, mode, s, ReadAll(c, mode, s), records[..k], Silent(f, q, p + n - q))
    decreases |records|
  {
    hide Loop, Synced, RecordBytes, ReadAll, ReadsPrefix, LogBytes, Boundary, Ends, Reports, ReturnsRecord, Silent;
    var k := Complete(f, p, records, n);
    if records == [] {
      NoRecords(f, p, records, n);
      NothingLeft(c, mode, s);
      SilentEnd(c, mode, f, p, s, Loop(c, mode, s, IDLE).s);
      ReadAllStops(c, mode, s, Silent(f, p, 0));
      assert records[..k] == [];
    } else {
      LogSplit(f, p, records, n);
      var x := RecordBytes(f, p, records[0]);
      if n < |x| {
        NoRecords(f, p, records, 0);
        RecordCut(c, mode, f, s, p, records[0]);
        ReadAllStops(c, mode, s, Silent(f, p, n));
        assert records[..k] == [];
      } else {
        RecordWhole(c, mode, f, s, p, records[0]);
        var r := Loop(c, mode, s, IDLE);
        var q := p + |x|;
        AfterRecord(s, r, records[0], q, ReportedOffset(f, p));
        ReadAllVisible(c, mode, f, r.s, q, records[1..], n - |x|);
        BoundaryStep(f, p, records, k);
        var end := Boundary(f, p, records, k);
        ReadAllGoesOn(c, mode, s, records[0], q, ReportedOffset(f, p), records[1..][..k - 1],
          Silent(f, end, p + n - end));
      }
    }
  }

  lemma NoRecords(f: Format, p: nat, records: seq<Bytes>, n: nat)
    requires n <= |LogBytes(f, p, records)|
    ensures Boundary(f, p, records, 0) == p
    ensures records == [] ==> n == 0
  {
    hide RecordBytes;
  }

  lemma SilentEnd(c: Config, mode: Mode, f: Format, p: nat, s: State, s': State)
    requires s'.reports == s.reports
    ensures Silent(f, p, 0) && Reports(c, mode, s, s', true)
  {
  }

  // ---------- a log that stays as it is ----------

  lemma InitialSynced(data: Bytes)
    ensures var s := Initial(data, map[]); Synced(s) && At(s) == 0 && Visible(s) == data && s.lastRecordOffset == 0
  {
  }

  // The first n bytes of a log give back exactly the records they hold completely. The cut is
  // never reported, except in absolute consistency mode, which reports it unless it is silent.
  lemma CrashPrefix(c: Config, mode: Mode, f: Format, records: seq<Bytes>, n: nat)
    requires c.initialOffset == 0 && Matches(c, f)
    ensures var image := LogBytes(f, 0, records);
            var size := Min(n, |image|);
            var a := ReadAll(c, mode, Initial(image[..size], map[]));
            var k := Complete(f, 0, records, size);
            var q := Boundary(f, 0, records, k);
            && a.records == records[..k] && a.outcome.End?
            && q <= size
            && (a.s.reports == [] <==> !mode.AbsoluteConsistency? || !c.reporting || Silent(f, q, size - q))
  {
    hide LogBytes, ReadAll, Complete, Boundary, Synced, Moved, Silent;
    var size := Min(n, |LogBytes(f, 0, records)|);
    var data := LogBytes(f, 0, records)[..size];
    InitialSynced(data);
    assert data[0..] == data;
    ReadAllVisible(c, mode, f, Initial(data, map[]), 0, records, size);
  }

  // In the legacy format the silent cuts are the ends of records and of the trailers after them.
  lemma LegacySilentCuts(f: Format, p: nat, n: nat)
    requires !f.recycle
    ensures Silent(f, p, n) <==> n == 0 || n == TrailerSize(f, p)
  {
  }

  lemma {:induction false} CompleteAll(f: Format, p: nat, records: seq<Bytes>)
    ensures Complete(f, p, records, |LogBytes(f, p, records)|) == |records|
    decreases |records|
  {
    hide RecordBytes;
    if records != [] {
      CompleteAll(f, p + |RecordBytes(f, p, records[0])|, records[1..]);
    }
  }

  // Every list of records, of any sizes, in either format, comes back in order and unreported.
  lemma RoundTrip(c: Config, mode: Mode, f: Format, records: seq<Bytes>)
    requires c.initialOffset == 0 && Matches(c, f)
    ensures var a := ReadAll(c, mode, Initial(LogBytes(f, 0, records), map[]));
            a.records == records && a.outcome.End? && a.s.reports == []
  {
    hide LogBytes, ReadAll, Complete;
    var image := LogBytes(f, 0, records);
    CompleteAll(f, 0, records);
    CrashPrefix(c, mode, f, records, |image|);
    assert image[..|image|] == image && records[..|records|] == records;
  }

  // ---------- the wrong log number ----------

  lemma FirstHeader(f: Format, records: seq<Bytes>) returns (t: Byte, payload: Bytes)
    requires records != []
    ensures |payload| <= 0xffff && IsRecyclableType(t) == f.recycle && 1 <= t <= 8
    ensures Physical(f, t, payload) <= LogBytes(f, 0, records) && |Physical(f, t, payload)| <= BLOCK_SIZE
  {
    hide Physical, Fragments;
    var n, x, rest;
    n, t, x, rest := FragmentsSplit(f, 0, records[0], true);
    payload := records[0][..n];
    assert TrailerSize(f, 0) == 0;
    assert x <= RecordBytes(f, 0, records[0]);
    assert x <= LogBytes(f, 0, records);
  }

  lemma HeaderIsStale(c: Config, f: Format, t: Byte, payload: Bytes, s: State)
    requires f.recycle && IsRecyclableType(t) && |payload| <= 0xffff && c.logNumber != f.logNumber % 0x1_0000_0000
    requires Physical(f, t, payload) <= s.buffer
    ensures Stale(c, s)
  {
    hide Physical, DecodeFixed32, DecodeLength, Crc.Value, Crc.Unmask;
    PhysicalFields(f, t, payload, s.buffer);
  }

  lemma StaleIsOld(c: Config, s: State)
    requires Stale(c, s)
    ensures var r := ReadPhysical(c, s);
            r.code == OLD_RECORD && Stale(c, r.s) && Unread(r.s) == Unread(s)
  {
    hide DecodeFixed32, Position;
  }

  lemma WrongNumber(c: Config, mode: Mode, f: Format, records: seq<Bytes>)
    requires c.initialOffset == 0 && !Matches(c, f) && records != []
    ensures var r := ReadRecord(c, mode, Initial(LogBytes(f, 0, records), map[]));
            r.outcome == if mode.SkipAnyCorrupted? then Spin else End
  {
    hide LogBytes, Physical, DecodeFixed32, DecodeLength, ReportDrop, ReadPhysical, ReadMore, Stale;
    var data := LogBytes(f, 0, records);
    var s := Initial(data, map[]);
    var t, payload := FirstHeader(f, records);
    var x := Physical(f, t, payload);
    InitialSynced(data);
    RefillLemma(c, s);
    var s' := ReadMore(c, s).s;
    assert x <= s'.buffer by { assert data[0..Min(BLOCK_SIZE, |data|)][..|x|] == data[..|x|]; }
    PhysicalFields(f, t, payload, s'.buffer);
    HeaderIsStale(c, f, t, payload, s');
    StaleIsOld(c, s');
    RefillFirst(c, s);
    var r := Step(c, mode, s, IDLE);
    if mode.SkipAnyCorrupted? {
      assert r.Continue? && Stale(c, r.s) && Progress(s, r.s);
      StaleSpins(c, r.s, r.l);
    }
  }

  // A recyclable log can be read back exactly by readers that are told the low 32 bits of its
  // number; a writer's number of 2^32 or more is therefore not readable under its own name.
  lemma ReadableIffNumberMatches(c: Config, mode: Mode, f: Format, records: seq<Bytes>)
    requires c.initialOffset == 0 && f.recycle && records != []
    ensures ReadAll(c, mode, Initial(LogBytes(f, 0, records), map[])).records == records
            <==> c.logNumber == f.logNumber % 0x1_0000_0000
    ensures f.logNumber >= 0x1_0000_0000 && c.logNumber == f.logNumber ==>
              ReadAll(c, mode, Initial(LogBytes(f, 0, records), map[])).records == []
  {
    hide LogBytes, ReadRecord;
    if Matches(c, f) {
      RoundTrip(c, mode, f, records);
    } else {
      WrongNumber(c, mode, f, records);
    }
  }
}
