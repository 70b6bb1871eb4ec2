/**
 When ReadRecord returns (rutil/log_reader.cc:74-225): always, on any bytes and with any read
 failures, except in SkipAnyCorrupted mode on a header that carries another log's number.
 */
module LogTermination {
  import opened Coding
  import opened LogFormat
  import opened LogReader

  // The buffer starts with a complete recyclable header of another log.
  predicate Stale(c: Config, s: State) {
    && |s.buffer| >= RECYCLABLE_HEADER_SIZE
    && IsRecyclableType(TypeOf(s.buffer[6]))
    && DecodeFixed32(s.buffer[7..]) != c.logNumber
  }

  lemma {:induction false} PhysicalProgress(c: Config, s: State)
    ensures var r := ReadPhysical(c, s);
            || Progress(s, r.s)
            || (r.code == EOF && s.buffer == [])
            || (r.code == OLD_RECORD && Stale(c, s) && Stale(c, r.s)
                && r.s == if Position(s) == 0 then s.(recycled := true) else s)
    decreases Unread(s)
  {
    hide Position, ReadPayload;
    if |s.buffer| < HEADER_SIZE {
      var m := ReadMore(c, s);
      if m.ok {
        PhysicalProgress(c, m.s);
      }
    } else if IsRecyclableType(TypeOf(s.buffer[6])) {
      var s1 := if Position(s) == 0 then s.(recycled := true) else s;
      if |s.buffer| < RECYCLABLE_HEADER_SIZE {
        var m := ReadMore(c, s1);
        if m.ok {
          PhysicalProgress(c, m.s);
        }
      } else if DecodeFixed32(s.buffer[7..]) == c.logNumber {
        PayloadProgress(c, s1, TypeOf(s.buffer[6]), RECYCLABLE_HEADER_SIZE, DecodeLength(s.buffer[4], s.buffer[5]));
      }
    } else {
      PayloadProgress(c, s, TypeOf(s.buffer[6]), HEADER_SIZE, DecodeLength(s.buffer[4], s.buffer[5]));
    }
  }

  lemma PayloadProgress(c: Config, s: State, t: nat, headerSize: nat, length: nat)
    requires HEADER_SIZE <= headerSize <= |s.buffer|
    ensures Progress(s, ReadPayload(c, s, t, headerSize, length).s)
  {
  }

  lemma StepProgress(c: Config, mode: Mode, s: State, l: Local)
    ensures var r := Step(c, mode, s, l);
            r.Continue? ==> Progress(s, r.s) || (mode.SkipAnyCorrupted? && Stale(c, s))
  {
    hide ReadPhysical;
    PhysicalProgress(c, s);
  }

  // Every call returns, whatever the bytes and whatever reads fail, in the other three modes.
  lemma {:induction false} LoopTerminates(c: Config, mode: Mode, s: State, l: Local)
    requires !mode.SkipAnyCorrupted?
    ensures !Loop(c, mode, s, l).outcome.Spin?
    decreases Unread(s), |s.buffer|
  {
    hide Step, Stale;
    StepProgress(c, mode, s, l);
    match Step(c, mode, s, l)
    case Return(_, _) => ReturnsAnswer(c, mode, s, l);
    case Continue(s', l') => LoopTerminates(c, mode, s', l');
  }

  lemma ReturnsAnswer(c: Config, mode: Mode, s: State, l: Local)
    ensures var r := Step(c, mode, s, l); r.Return? ==> !r.outcome.Spin?
  {
    hide ReadPhysical, ReportDrop;
  }

  lemma ReadRecordTerminates(c: Config, mode: Mode, s: State)
    requires !mode.SkipAnyCorrupted?
    ensures !ReadRecord(c, mode, s).outcome.Spin?
  {
    hide Loop;
    if s.lastRecordOffset < c.initialOffset {
      LoopTerminates(c, mode, SkipToInitialBlock(c, s).s, IDLE);
    } else {
      LoopTerminates(c, mode, s, IDLE);
    }
  }

  // In SkipAnyCorrupted mode a stale header makes the loop spin.
  lemma StaleStep(c: Config, mode: Mode, s: State, l: Local)
    requires mode.SkipAnyCorrupted? && Stale(c, s)
    ensures var r := Step(c, mode, s, l);
            && r.Continue? && !Progress(s, r.s) && Stale(c, r.s)
            && !r.l.inFragment && r.l.scratch == []
            && Step(c, mode, r.s, r.l) == r
  {
    hide ReadPayload;
  }

  // The local variables that the loop is left with.
  function LastLocal(c: Config, mode: Mode, s: State, l: Local): Local
    decreases Unread(s), |s.buffer|
  {
    match Step(c, mode, s, l)
    case Return(_, _) => l
    case Continue(s', l') => if Progress(s, s') then LastLocal(c, mode, s', l') else l'
  }

  // The loop spins only there, and a spinning loop really is stuck: its state and its local
  // variables, which hold no record, are their own successors.
  lemma {:induction false} SpinMeansStuck(c: Config, mode: Mode, s: State, l: Local)
    requires Loop(c, mode, s, l).outcome.Spin?
    ensures mode.SkipAnyCorrupted?
    ensures var s' := Loop(c, mode, s, l).s;
            var l' := LastLocal(c, mode, s, l);
            Stale(c, s') && !l'.inFragment && l'.scratch == [] && Step(c, mode, s', l') == Continue(s', l')
    decreases Unread(s), |s.buffer|
  {
    hide Step, Stale;
    StepProgress(c, mode, s, l);
    match Step(c, mode, s, l)
    case Return(_, _) => ReturnsAnswer(c, mode, s, l);
    case Continue(s', l') =>
      if Progress(s, s') {
        SpinMeansStuck(c, mode, s', l');
      } else {
        StaleStep(c, mode, s, l);
      }
  }

  lemma StaleSpins(c: Config, s: State, l: Local)
    requires Stale(c, s)
    ensures Loop(c, SkipAnyCorrupted, s, l).outcome.Spin?
  {
    hide Step;
    StaleStep(c, SkipAnyCorrupted, s, l);
  }

  // Returning a record uses up input, so a reader of a file that stays as it is returns only
  // finitely many.
  lemma {:induction false} LoopUsesInput(c: Config, mode: Mode, s: State, l: Local)
    ensures var r := Loop(c, mode, s, l); r.outcome.Record? ==> Progress(s, r.s)
    decreases Unread(s), |s.buffer|
  {
    hide Step;
    RecordUsesInput(c, mode, s, l);
    match Step(c, mode, s, l)
    case Return(_, _) =>
    case Continue(s', l') =>
      if Progress(s, s') {
        LoopUsesInput(c, mode, s', l');
      }
  }

  lemma RecordUsesInput(c: Config, mode: Mode, s: State, l: Local)
    ensures var r := Step(c, mode, s, l); r.Return? && r.outcome.Record? ==> Progress(s, r.s)
  {
    hide ReadPhysical, ReportDrop;
    PhysicalProgress(c, s);
  }

  lemma ReadRecordUsesInput(c: Config, mode: Mode, s: State)
    ensures var r := ReadRecord(c, mode, s); r.outcome.Record? ==> Progress(s, r.s)
  {
    hide Loop;
    if s.lastRecordOffset < c.initialOffset {
      LoopUsesInput(c, mode, SkipToInitialBlock(c, s).s, IDLE);
    } else {
      LoopUsesInput(c, mode, s, IDLE);
    }
  }

  datatype ReadAllResult = ReadAllResult(records: seq<Bytes>, outcome: Outcome, s: State)

  // Call ReadRecord until it does not return a record.
  function ReadAll(c: Config, mode: Mode, s: State): ReadAllResult
    decreases Unread(s), |s.buffer|
  {
    var r := ReadRecord(c, mode, s);
    if r.outcome.Record? then
      ReadRecordUsesInput(c, mode, s);
      var rest := ReadAll(c, mode, r.s);
      rest.(records := [r.outcome.bytes] + rest.records)
    else ReadAllResult([], r.outcome, r.s)
  }
}
