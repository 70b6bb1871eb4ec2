/**
 Reading back logical records that the writer wrote (rutil/log_reader.cc:74-225 against
 rutil/log_writer.cc:36-135): a record whose bytes are all visible is returned, and one that is
 cut anywhere ends the reading.
 */
module LogRecords {
  import opened Coding
  import opened LogFormat
  import opened LogReader
  import opened LogSoundness
  import opened LogParsing
  import LogTermination

  // The loop is between records, or inside one whose bytes so far are in scratch.
  predicate InRecord(l: Local, begin: bool) {
    if begin then !l.inFragment && l.scratch == [] else l.inFragment
  }

  ghost predicate ReturnsRecord(s: State, r: Result, record: Bytes, end: nat, offset: nat) {
    && r.outcome == Record(record)
    && Moved(s, r.s.(lastRecordOffset := s.lastRecordOffset), end)
    && r.s.lastRecordOffset == offset
  }

  lemma FragmentStepWhole(c: Config, mode: Mode, f: Format, s: State, l: Local, q: nat, t: Byte, payload: Bytes)
    requires Synced(s) && Matches(c, f) && |payload| <= 0xffff
    requires 1 <= t <= 8 && IsRecyclableType(t) == f.recycle
    requires NextHeader(s, q) && q % BLOCK_SIZE + |Physical(f, t, payload)| <= BLOCK_SIZE
    requires q + |Physical(f, t, payload)| <= |Visible(s)|
    requires Visible(s)[q..q + |Physical(f, t, payload)|] == Physical(f, t, payload)
    requires q >= c.initialOffset
    requires InRecord(l, LegacyType(t) == FULL_TYPE || LegacyType(t) == FIRST_TYPE)
    ensures var r := Step(c, mode, s, l);
            var end := q + |Physical(f, t, payload)|;
            match LegacyType(t)
            case 1 => r.Return? && ReturnsRecord(s, Result(r.outcome, r.s), payload, end, At(s))
            case 2 => r.Continue? && Progress(s, r.s) && Moved(s, r.s, end) && r.l == Local(true, payload, At(s))
            case 3 => r.Continue? && Progress(s, r.s) && Moved(s, r.s, end)
              && r.l == Local(true, l.scratch + payload, l.prospective)
            case 4 => r.Return? && ReturnsRecord(s, Result(r.outcome, r.s), l.scratch + payload, end, l.prospective)
            case _ => true
  {
    hide Physical, ReadPhysical, ReportDrop;
    PhysicalWhole(c, f, s, q, t, payload);
    LogTermination.PhysicalProgress(c, s);
    PositionIsAt(s);
  }

  lemma PrefixSplit(v: Bytes, q: nat, x: Bytes, rest: Bytes)
    requires q <= |v| && x + rest <= v[q..]
    ensures q + |x| <= |v| && v[q..q + |x|] == x && rest <= v[q + |x|..]
  {
    assert v[q..][..|x|] == (x + rest)[..|x|];
    assert v[q + |x|..][..|rest|] == (x + rest)[|x|..];
  }

  lemma CutSplit(v: Bytes, q: nat, x: Bytes, rest: Bytes)
    requires q <= |v| && v[q..] < x + rest
    ensures if |v| < q + |x| then v[q..] < x else v[q..q + |x|] == x && v[q + |x|..] < rest
  {
    if |v| < q + |x| {
      assert v[q..] == (x + rest)[..|v| - q] == x[..|v| - q];
    } else {
      assert v[q..][..|x|] == (x + rest)[..|x|];
      assert v[q + |x|..] == (x + rest)[|x|..|v| - q];
    }
  }

  // The first physical record of a run of fragments, and what follows it.
  lemma FragmentsSplit(f: Format, q: nat, left: Bytes, begin: bool) returns (n: nat, t: Byte, x: Bytes, rest: Bytes)
    requires HeaderFits(f, q)
    ensures n == Min(|left|, Available(f, q)) <= 0xffff
    ensures t == FragmentType(f.recycle, begin, n == |left|) && IsRecyclableType(t) == f.recycle
    ensures |x| == f.HeaderSize() + n && q % BLOCK_SIZE + |x| <= BLOCK_SIZE
    ensures n == 0 && left != [] ==> q % BLOCK_SIZE != 0
    ensures n == |left| ==> rest == []
    ensures n < |left| ==> q + |x| == BlockEnd(q) && HeaderFits(f, q + |x|)
    ensures n < |left| ==> rest == Fragments(f, q + |x|, left[n..], false)
    ensures x == Physical(f, t, left[..n])
    ensures Fragments(f, q, left, begin) == x + rest
  {
    hide Physical;
    n := Min(|left|, Available(f, q));
    t := FragmentType(f.recycle, begin, n == |left|);
    x := Physical(f, t, left[..n]);
    rest := if n == |left| then [] else Fragments(f, BlockEnd(q), left[n..], false);
  }

  lemma MovedNext(s: State, s': State, p: nat)
    requires Moved(s, s', p)
    ensures Synced(s') && NextHeader(s', p) && Visible(s') == Visible(s)
  {
  }

  lemma RecordAfterStep(s: State, s': State, p: nat, r: Result, record: Bytes, end: nat, offset: nat)
    requires Moved(s, s', p) && ReturnsRecord(s', r, record, end, offset)
    ensures ReturnsRecord(s, r, record, end, offset)
  {
  }

  lemma EndAfterStep(c: Config, mode: Mode, s: State, s': State, p: nat, r: Result, silent: bool)
    requires Moved(s, s', p) && Ends(s', r) && Reports(c, mode, s', r.s, silent)
    ensures Ends(s, r) && Reports(c, mode, s, r.s, silent)
  {
  }

  // All fragments of the rest of a record are visible: the record comes back.
  lemma {:induction false} FragmentsWhole(
    c: Config, mode: Mode, f: Format, s: State, l: Local, q: nat, left: Bytes, begin: bool)
    requires Synced(s) && Matches(c, f) && HeaderFits(f, q) && NextHeader(s, q) && q >= c.initialOffset
    requires InRecord(l, begin)
    requires q <= |Visible(s)| && Fragments(f, q, left, begin) <= Visible(s)[q..]
    ensures ReturnsRecord(s, Loop(c, mode, s, l), l.scratch + left, q + |Fragments(f, q, left, begin)|,
                          if begin then At(s) else l.prospective)
    decreases |left|, q % BLOCK_SIZE
  {
    hide Physical, Step, Fragments, Synced, Moved, NextHeader, ReturnsRecord, Visible;
    var n, t, x, rest := FragmentsSplit(f, q, left, begin);
    PrefixSplit(Visible(s), q, x, rest);
    FragmentStepWhole(c, mode, f, s, l, q, t, left[..n]);
    var r := Step(c, mode, s, l);
    var end := q + |x| + |rest|;
    if n == |left| {
      assert left[..n] == left;
      assert begin ==> [] + left == left;
      assert Loop(c, mode, s, l) == Result(r.outcome, r.s);
    } else {
      assert Loop(c, mode, s, l) == Loop(c, mode, r.s, r.l);
      MovedNext(s, r.s, q + |x|);
      FragmentsWhole(c, mode, f, r.s, r.l, q + |x|, left[n..], false);
      RecordAfterStep(s, r.s, q + |x|, Loop(c, mode, s, l), r.l.scratch + left[n..], end, r.l.prospective);
      assert r.l.scratch + left[n..] == l.scratch + left;
    }
  }

  // ---------- cut records ----------

  // Reading ends at the end of the visible bytes.
  ghost predicate Ends(s: State, r: Result) {
    && r.outcome.End?
    && Moved(s, r.s.(reports := s.reports), |Visible(s)|) && r.s.eof && r.s.buffer == []
  }

  // In absolute consistency mode a cut is reported unless it is silent; in the others it never is.
  ghost predicate Reports(c: Config, mode: Mode, s: State, s': State, silent: bool) {
    if mode.AbsoluteConsistency? && c.reporting && !silent then s.reports < s'.reports else s'.reports == s.reports
  }

  lemma CutStep(c: Config, mode: Mode, s: State, l: Local, q: nat)
    requires Synced(s) && ReadsCut(s, q, ReadPhysical(c, s))
    requires c.initialOffset + |l.scratch| <= q
    ensures Loop(c, mode, s, l).outcome.End?
    ensures Ends(s, Loop(c, mode, s, l))
    ensures Reports(c, mode, s, Loop(c, mode, s, l).s, q == |Visible(s)| && !l.inFragment)
  {
    hide ReadPhysical;
    PositionIsAt(ReadPhysical(c, s).s);
  }

  lemma {:induction false} FragmentsCut(
    c: Config, mode: Mode, f: Format, s: State, l: Local, q: nat, left: Bytes, begin: bool)
    requires Synced(s) && Matches(c, f) && HeaderFits(f, q) && NextHeader(s, q)
    requires InRecord(l, begin) && c.initialOffset + |l.scratch| <= q
    requires q <= |Visible(s)| && Visible(s)[q..] < Fragments(f, q, left, begin)
    ensures Ends(s, Loop(c, mode, s, l))
    ensures Reports(c, mode, s, Loop(c, mode, s, l).s, q == |Visible(s)| && begin)
    decreases |left|, q % BLOCK_SIZE
  {
    hide Physical, Step, Fragments, Synced, Moved, NextHeader, Ends, Reports, Visible;
    var n, t, x, rest := FragmentsSplit(f, q, left, begin);
    CutSplit(Visible(s), q, x, rest);
    if |Visible(s)| < q + |x| {
      PhysicalCut(c, f, s, q, t, left[..n]);
      CutStep(c, mode, s, l, q);
    } else {
      FragmentStepWhole(c, mode, f, s, l, q, t, left[..n]);
      var r := Step(c, mode, s, l);
      MovedNext(s, r.s, q + |x|);
      FragmentsCut(c, mode, f, r.s, r.l, q + |x|, left[n..], false);
      EndAfterStep(c, mode, s, r.s, q + |x|, Loop(c, mode, s, l), false);
    }
  }

  // ---------- records with their trailers ----------

  // Where the source says the record is: at its trailer when that is shorter than a header.
  function ReportedOffset(f: Format, p: nat): nat {
    var k := TrailerSize(f, p);
    if k >= HEADER_SIZE then p + k else p
  }

  // Seven or more zero bytes take one idle iteration.
  lemma ZerosStep(c: Config, mode: Mode, s: State)
    requires Synced(s) && |s.buffer| >= HEADER_SIZE
    requires forall i :: 0 <= i < |s.buffer| ==> s.buffer[i] == 0
    ensures var r := Step(c, mode, s, IDLE);
            && r.Continue? && r.l == IDLE && Progress(s, r.s) && Moved(s, r.s, s.file.pos) && r.s.buffer == []
              && r.s.eof == s.eof
            && Loop(c, mode, s, IDLE) == Loop(c, mode, r.s, IDLE)
  {
    hide ReadPhysical, ReportDrop;
    LongZeros(c, s);
    LogTermination.PhysicalProgress(c, s);
  }

  // The buffer of a reader that stands at a trailer.
  lemma AtTrailer(f: Format, s: State, p: nat)
    requires Synced(s) && p == At(s) && TrailerSize(f, p) > 0
    ensures var k := TrailerSize(f, p);
            && p + k == BlockEnd(p)
            && s.buffer == Visible(s)[p..p + |s.buffer|]
            && |s.buffer| == Min(k, |Visible(s)| - p)
            && (s.eof <==> |Visible(s)| < p + k)
            && (!s.eof ==> s.file.pos == p + k)
  {
  }

  lemma RecordWhole(c: Config, mode: Mode, f: Format, s: State, p: nat, record: Bytes)
    requires Synced(s) && Matches(c, f) && p == At(s) && p + TrailerSize(f, p) >= c.initialOffset
    requires p <= |Visible(s)| && RecordBytes(f, p, record) <= Visible(s)[p..]
    ensures ReturnsRecord(s, Loop(c, mode, s, IDLE), record, p + |RecordBytes(f, p, record)|, ReportedOffset(f, p))
  {
    hide Fragments, Loop, Step, Synced, ReadPhysical;
    var k := TrailerSize(f, p);
    var x := Fragments(f, p + k, record, true);
    PrefixSplit(Visible(s), p, ZeroBytes(k), x);
    assert IDLE.scratch + record == record;
    if k == 0 {
      FragmentsWhole(c, mode, f, s, IDLE, p, record, true);
    } else {
      AtTrailer(f, s, p);
      if k < HEADER_SIZE {
        FragmentsWhole(c, mode, f, s, IDLE, p + k, record, true);
      } else {
        assert s.buffer == ZeroBytes(k);
        ZerosStep(c, mode, s);
        FragmentsWhole(c, mode, f, Step(c, mode, s, IDLE).s, IDLE, p + k, record, true);
      }
    }
  }

  // A cut that absolute consistency does not report: nothing of the record is there, or only its
  // whole trailer, or so much of a trailer that it parses as a skipped record.
  predicate Silent(f: Format, p: nat, n: nat) {
    n == 0 || (n <= TrailerSize(f, p) && (n == TrailerSize(f, p) || n >= HEADER_SIZE))
  }

  // The log ends inside a trailer.
  lemma TrailerCut(c: Config, mode: Mode, f: Format, s: State, p: nat)
    requires Synced(s) && p == At(s) >= c.initialOffset
    requires p <= |Visible(s)| < p + TrailerSize(f, p)
    requires forall i :: p <= i < |Visible(s)| ==> Visible(s)[i] == 0
    ensures Ends(s, Loop(c, mode, s, IDLE))
    ensures Reports(c, mode, s, Loop(c, mode, s, IDLE).s, Silent(f, p, |Visible(s)| - p))
  {
    hide Loop, Step, ReadPhysical, Moved, Synced, Ends, Reports;
    AtTrailer(f, s, p);
    if |s.buffer| >= HEADER_SIZE {
      ZerosStep(c, mode, s);
      var s' := Step(c, mode, s, IDLE).s;
      MovedNext(s, s', s.file.pos);
      ShortEnd(c, s');
      CutStep(c, mode, s', IDLE, |Visible(s)|);
      EndAfterStep(c, mode, s, s', s.file.pos, Loop(c, mode, s, IDLE), true);
    } else {
      ShortEnd(c, s);
      CutStep(c, mode, s, IDLE, p);
    }
  }

  lemma RecordCut(c: Config, mode: Mode, f: Format, s: State, p: nat, record: Bytes)
    requires Synced(s) && Matches(c, f) && p == At(s) >= c.initialOffset
    requires p <= |Visible(s)| && Visible(s)[p..] < RecordBytes(f, p, record)
    ensures Ends(s, Loop(c, mode, s, IDLE))
    ensures Reports(c, mode, s, Loop(c, mode, s, IDLE).s, Silent(f, p, |Visible(s)| - p))
  {
    hide Fragments, Loop, Step, Synced, ReadPhysical, Moved, Ends, Reports;
    var k := TrailerSize(f, p);
    var q := p + k;
    var x := Fragments(f, q, record, true);
    var v := Visible(s);
    CutSplit(v, p, ZeroBytes(k), x);
    if |v| < q {
      assert forall i :: p <= i < |v| ==> v[i] == v[p..][i - p] == 0;
      TrailerCut(c, mode, f, s, p);
    } else if k < HEADER_SIZE {
      if k > 0 {
        AtTrailer(f, s, p);
      }
      FragmentsCut(c, mode, f, s, IDLE, q, record, true);
    } else {
      AtTrailer(f, s, p);
      assert forall i :: 0 <= i < |s.buffer| ==> s.buffer[i] == v[p..q][i] == 0;
      ZerosStep(c, mode, s);
      var s' := Step(c, mode, s, IDLE).s;
      MovedNext(s, s', q);
      FragmentsCut(c, mode, f, s', IDLE, q, record, true);
      EndAfterStep(c, mode, s, s', q, Loop(c, mode, s, IDLE), q == |v|);
    }
  }

  // At the very end of the visible log nothing is returned or reported.
  lemma NothingLeft(c: Config, mode: Mode, s: State)
    requires Synced(s) && At(s) == |Visible(s)| && At(s) >= c.initialOffset
    ensures Ends(s, Loop(c, mode, s, IDLE))
    ensures Loop(c, mode, s, IDLE).s.reports == s.reports
  {
    hide RecordBytes, Loop;
    var f := Format(false, 0);
    assert Visible(s)[At(s)..] == [];
    RecordCut(c, mode, f, s, At(s), []);
  }
}
