/**
 The writer object and the reader object together: what one writes, the other reads back, from a
 whole file or from what a crash left of it.
 */
module LogEndToEnd {
  import opened Coding
  import opened LogFormat
  import opened LogReader
  import opened LogTermination
  import opened LogRecovery
  import opened LogParsing
  import opened Masks
  import FileWriter
  import Writing = LogWriter
  import Reading = LogReaderClass

  // Adds the records up to the first one that fails, if any. With the operating system's buffering the
  // file then holds all that were added, and no more than the beginning of the next one.
  method WriteLog(w: Writing.Writer, records: seq<Bytes>) returns (k: nat)
    requires w.Valid() && w.Healthy() && w.records == []
    modifies w, w.dest.Memory()
    ensures k <= |records| && w.Valid() && (w.dest.out.buf.mem == old(w.dest.out.buf.mem) || fresh(w.dest.out.buf.mem))
    ensures k == |records| ==> w.Healthy() && w.records == records
    ensures w.dest.out.file.Sound(old(w.dest.out.file.calls)) ==> k == |records|
    ensures w.dest.out.useOsBuffer ==>
              LogBytes(w.format, 0, records[..k]) <= w.dest.out.file.contents
              <= LogBytes(w.format, 0, records[..Min(k + 1, |records|)])
  {
    hide LogBytes, Fragments, Writing.Writer.Valid, Writing.Emitted, FileWriter.Padded;
    k := 0;
    assert records[..0] == [];
    if w.dest.out.useOsBuffer {
      w.HealthyFile();
    }
    while k < |records|
      invariant k <= |records| && w.Valid() && w.Healthy() && w.records == records[..k]
      invariant w.dest.out.buf.mem == old(w.dest.out.buf.mem) || fresh(w.dest.out.buf.mem)
      invariant w.dest.out.file.calls >= old(w.dest.out.file.calls)
      invariant w.dest.out.useOsBuffer ==> w.dest.out.file.contents == LogBytes(w.format, 0, records[..k])
    {
      assert records[..k + 1] == records[..k] + [records[k]];
      var ok := w.AddRecord(records[k]);
      if !ok {
        return;
      }
      k := k + 1;
      if w.dest.out.useOsBuffer {
        w.HealthyFile();
      }
    }
    assert records[..k] == records;
  }

  // Until the first call that returns false.
  method ReadLog(r: Reading.Reader, mode: Mode) returns (records: seq<Bytes>)
    modifies r
    ensures ReadAll(r.config, mode, old(r.Abs()))
            == ReadAllResult(records, ReadAll(r.config, mode, old(r.Abs())).outcome, r.Abs())
  {
    hide ReadAll, ReadRecord, Unread;
    records := [];
    ghost var whole := ReadAll(r.config, mode, r.Abs());
    while true
      invariant Behind(whole, records, ReadAll(r.config, mode, r.Abs()))
      decreases Unread(r.Abs()), |r.buffer|
    {
      ReadRecordUsesInput(r.config, mode, r.Abs());
      OneMore(r.config, mode, r.Abs(), whole, records);
      var outcome := r.ReadRecord(mode);
      if !outcome.Record? {
        return;
      }
      records := records + [outcome.bytes];
    }
  }

  // `records` and what is still to come are the whole result.
  ghost predicate Behind(whole: ReadAllResult, records: seq<Bytes>, rest: ReadAllResult) {
    whole == ReadAllResult(records + rest.records, rest.outcome, rest.s)
  }

  lemma OneMore(c: Config, mode: Mode, s: State, whole: ReadAllResult, records: seq<Bytes>)
    requires Behind(whole, records, ReadAll(c, mode, s))
    ensures var r := ReadRecord(c, mode, s);
            if r.outcome.Record? then Behind(whole, records + [r.outcome.bytes], ReadAll(c, mode, r.s))
            else whole == ReadAllResult(records, r.outcome, r.s)
  {
    hide ReadRecord;
    var r := ReadRecord(c, mode, s);
    if r.outcome.Record? {
      var rest := ReadAll(c, mode, r.s).records;
      assert records + ([r.outcome.bytes] + rest) == (records + [r.outcome.bytes]) + rest;
    } else {
      assert records + [] == records;
    }
  }

  method Close(w: Writing.Writer)
    requires w.Valid() && w.Healthy() && w.dest.out.file.Sound(w.dest.out.file.calls)
    modifies w.dest.Memory()
    ensures w.dest.out.file.contents == LogBytes(w.format, 0, w.records) && w.records == old(w.records)
  {
    hide LogBytes, FileWriter.WritableFileWriter.Valid, FileWriter.Padded;
    var _ := w.dest.out.Close();
    assert w.dest.out.stream[..w.dest.out.fileSize] == w.dest.out.stream;
  }

  // With or without the operating system's buffering, the records whose bytes lie wholly within the
  // first n bytes of the closed file come back, in order, in every mode.
  method WriteCrashRead(
    records: seq<Bytes>, f: Format, options: Writing.Options, checksum: bool, mode: Mode, n: nat)
    returns (back: seq<Bytes>)
    requires PowerOfTwo(options.alignment) && (f.recycle ==> f.logNumber < 0x1_0000_0000)
    ensures back == records[..Complete(f, 0, records, n)]
    ensures n >= |LogBytes(f, 0, records)| ==> back == records
  {
    hide LogBytes, Fragments, ReadAll, Complete, Writing.Writer.Valid, Writing.Writer.Healthy;
    var w := Writing.NewLog(f, options, map[]);
    var _ := WriteLog(w, records);
    Close(w);
    var contents := w.dest.out.file.contents;
    var left := if n < |contents| then contents[..n] else contents;
    var c := Config(checksum, 0, f.logNumber, true);
    var r := new Reading.Reader(c, left, map[]);
    back := ReadLog(r, mode);
    if n < |contents| {
      CrashPrefix(c, mode, f, records, n);
    } else {
      RoundTrip(c, mode, f, records);
      AllComplete(f, records, n);
      assert records[..|records|] == records;
    }
  }

  // Whatever calls of the file fail, and however much of each write arrives: every record that was
  // reported as added before the first failure comes back, and at most one more.
  method WriteFailRead(
    records: seq<Bytes>, f: Format, options: Writing.Options, faults: map<nat, nat>, checksum: bool, mode: Mode)
    returns (k: nat, back: seq<Bytes>)
    requires PowerOfTwo(options.alignment) && (f.recycle ==> f.logNumber < 0x1_0000_0000) && options.useOsBuffer
    ensures k <= |records| && back <= records && k <= |back| <= k + 1
  {
    hide LogBytes, Fragments, ReadAll, Complete, Writing.Writer.Valid, Writing.Writer.Healthy;
    var w := Writing.NewLog(f, options, faults);
    k := WriteLog(w, records);
    var contents := w.dest.out.file.contents;
    var c := Config(checksum, 0, f.logNumber, true);
    var r := new Reading.Reader(c, contents, map[]);
    back := ReadLog(r, mode);
    Acknowledged(c, mode, f, records, k, contents);
  }

  lemma Acknowledged(c: Config, mode: Mode, f: Format, records: seq<Bytes>, k: nat, contents: Bytes)
    requires c.initialOffset == 0 && Matches(c, f) && k <= |records|
    requires LogBytes(f, 0, records[..k]) <= contents <= LogBytes(f, 0, records[..Min(k + 1, |records|)])
    ensures var back := ReadAll(c, mode, Initial(contents, map[])).records;
            back <= records && k <= |back| <= k + 1
  {
    hide LogBytes, ReadAll, Complete;
    var m := Min(k + 1, |records|);
    var some, image := records[..m], LogBytes(f, 0, records[..m]);
    assert contents == image[..|contents|];
    CrashPrefix(c, mode, f, some, |contents|);
    var n := Complete(f, 0, some, |contents|);
    if n < k {
      CompleteIsMaximal(f, 0, some, |contents|);
      assert some[..n + 1] == records[..k][..n + 1];
      PrefixShorter(f, records[..k], n + 1);
    }
    assert some[..n] == records[..n];
  }

  lemma AllComplete(f: Format, records: seq<Bytes>, n: nat)
    requires n >= |LogBytes(f, 0, records)|
    ensures Complete(f, 0, records, n) == |records|
  {
    hide LogBytes, Complete;
    CompleteIsMaximal(f, 0, records, n);
    var k := Complete(f, 0, records, n);
    if k < |records| {
      PrefixShorter(f, records, k + 1);
    }
  }

  lemma PrefixShorter(f: Format, records: seq<Bytes>, k: nat)
    requires k <= |records|
    ensures |LogBytes(f, 0, records[..k])| <= |LogBytes(f, 0, records)|
  {
    hide LogBytes;
    assert records == records[..k] + records[k..];
    LogBytesAppend(f, 0, records[..k], records[k..]);
  }
}
