/**
 The reader as the source has it (rutil/log_reader.cc): an object whose methods update its buffer,
 flags and offsets in loops. Every method is proved to make exactly the transition that the
 functions of module LogReader describe, so the theorems about those hold of this object.
 */
module LogReaderClass {
  import opened Coding
  import opened LogFormat
  import opened LogReader
  import Crc = Crc32c

  class Reader {
    const config: Config
    var file: File
    var buffer: Bytes
    var eof: bool
    var readError: bool
    var eofOffset: BlockOffset
    var lastRecordOffset: nat
    var endOfBuffer: nat
    var recycled: bool
    var reports: seq<Report>

    function Abs(): State
      reads this
    {
      State(file, buffer, eof, readError, eofOffset, lastRecordOffset, endOfBuffer, recycled, reports)
    }

    constructor (config: Config, data: Bytes, faults: map<nat, nat>)
      ensures this.config == config && Abs() == Initial(data, faults)
    {
      this.config := config;
      file := FileState(data, 0, faults, 0);
      buffer, eof, readError, eofOffset := [], false, false, 0;
      lastRecordOffset, endOfBuffer, recycled, reports := 0, 0, false, [];
    }

    method ReportDrop(bytes: nat, reason: Reason)
      modifies this`reports
      ensures Abs() == LogReader.ReportDrop(config, old(Abs()), bytes, reason)
    {
      if config.reporting && Sub64(Sub64(endOfBuffer, |buffer|), bytes) >= config.initialOffset {
        reports := reports + [Report(bytes, reason)];
      }
    }

    method ReadMore() returns (ok: bool, code: nat, drop: nat)
      modifies this
      ensures LogReader.ReadMore(config, old(Abs())) == More(ok, code, drop, Abs())
    {
      ok, code, drop := true, 0, 0;
      if !eof && !readError {
        buffer := [];
        var r := Read(file, BLOCK_SIZE);
        file, buffer := r.file, r.bytes;
        endOfBuffer := endOfBuffer + |buffer|;
        if !r.ok {
          buffer := [];
          ReportDrop(BLOCK_SIZE, IoError);
          readError := true;
          ok, code := false, EOF;
        } else if |buffer| < BLOCK_SIZE {
          eof := true;
          eofOffset := |buffer|;
        }
      } else if |buffer| > 0 {
        drop := |buffer|;
        buffer := [];
        ok, code := false, BAD_HEADER;
      } else {
        ok, code := false, EOF;
      }
    }

    method ReadPhysicalRecord() returns (code: nat, fragment: Bytes, drop: nat)
      modifies this
      ensures ReadPhysical(config, old(Abs())) == PhysicalResult(code, fragment, drop, Abs())
    {
      hide ReadPayload, LogReader.ReadMore, DecodeLength, DecodeFixed32;
      code, fragment, drop := 0, [], 0;
      while true
        invariant ReadPhysical(config, Abs()) == ReadPhysical(config, old(Abs()))
        decreases Unread(Abs())
      {
        if |buffer| < HEADER_SIZE {
          var ok, r, d := ReadMore();
          if !ok {
            return r, [], d;
          }
          continue;
        }
        var header := buffer;
        var t := TypeOf(header[6]);
        var length := DecodeLength(header[4], header[5]);
        var headerSize := HEADER_SIZE;
        if RECYCLABLE_FULL_TYPE <= t <= RECYCLABLE_LAST_TYPE {
          if Sub64(endOfBuffer, |buffer|) == 0 {
            recycled := true;
          }
          headerSize := RECYCLABLE_HEADER_SIZE;
          if |buffer| < RECYCLABLE_HEADER_SIZE {
            var ok, r, d := ReadMore();
            if !ok {
              return r, [], d;
            }
            continue;
          }
          if DecodeFixed32(header[7..]) != config.logNumber {
            return OLD_RECORD, [], 0;
          }
        }
        code, fragment, drop := TakePayload(t, headerSize, length);
        return;
      }
    }

    // The second half of an iteration: the header is complete, check and take the payload.
    method TakePayload(t: nat, headerSize: nat, length: nat) returns (code: nat, fragment: Bytes, drop: nat)
      requires HEADER_SIZE <= headerSize <= |buffer|
      modifies this`buffer
      ensures ReadPayload(config, old(Abs()), t, headerSize, length) == PhysicalResult(code, fragment, drop, Abs())
    {
      hide Crc.Value, Crc.Unmask, DecodeFixed32;
      var header := buffer;
      if headerSize + length > |buffer| {
        buffer := [];
        return if eof then BAD_HEADER else BAD_RECORD_LEN, [], |header|;
      }
      if t == ZERO_TYPE && length == 0 {
        buffer := [];
        return BAD_RECORD, [], 0;
      }
      if config.checksum && Crc.Unmask(DecodeFixed32(header)) != Crc.Value(header[6..headerSize + length]) {
        buffer := [];
        return BAD_RECORD_CHECKSUM, [], |header|;
      }
      buffer := buffer[headerSize + length..];
      if Sub64(endOfBuffer, |header|) < config.initialOffset {
        return BAD_RECORD, [], 0;
      }
      return t, header[headerSize..headerSize + length], 0;
    }

    method SkipToInitialBlock() returns (ok: bool)
      modifies this
      ensures LogReader.SkipToInitialBlock(config, old(Abs())) == SkipResult(ok, Abs())
    {
      var inBlock := config.initialOffset % BLOCK_SIZE;
      var start := config.initialOffset - inBlock;
      if inBlock > BLOCK_SIZE - 6 {
        start := start + BLOCK_SIZE;
      }
      endOfBuffer := start;
      ok := true;
      if start > 0 {
        var r := Skip(file, start);
        file := r.file;
        if !r.ok {
          ReportDrop(start, IoError);
          ok := false;
        }
      }
    }

    // One iteration of the assembly loop: `done` with an outcome, or new values for the locals.
    method Iterate(mode: Mode, inFragment: bool, scratch: Bytes, prospective: nat)
      returns (done: bool, outcome: Outcome, inFragment': bool, scratch': Bytes, prospective': nat)
      modifies this
      ensures Step(config, mode, old(Abs()), Local(inFragment, scratch, prospective))
           == if done then Return(outcome, Abs()) else Continue(Abs(), Local(inFragment', scratch', prospective'))
    {
      hide ReadPhysical, Dispatch;
      var offset := Sub64(endOfBuffer, |buffer|);
      var code, fragment, drop := ReadPhysicalRecord();
      if 1 <= code <= 8 {
        done, outcome, inFragment', scratch', prospective' :=
          OnRecord(mode, inFragment, scratch, prospective, offset, code, fragment, drop);
      } else {
        done, outcome, inFragment', scratch', prospective' :=
          OnOther(mode, inFragment, scratch, prospective, offset, code, fragment, drop);
      }
    }

    // The cases of the switch for record types.
    method OnRecord(
      mode: Mode, inFragment: bool, scratch: Bytes, prospective: nat, offset: nat, code: nat, fragment: Bytes,
      drop: nat)
      returns (done: bool, outcome: Outcome, inFragment': bool, scratch': Bytes, prospective': nat)
      requires 1 <= code <= 8
      modifies this
      ensures Dispatch(config, mode, Local(inFragment, scratch, prospective), offset,
                       PhysicalResult(code, fragment, drop, old(Abs())))
           == if done then Return(outcome, Abs()) else Continue(Abs(), Local(inFragment', scratch', prospective'))
    {
      hide LogReader.ReportDrop;
      done, outcome := false, End;
      inFragment', scratch', prospective' := inFragment, scratch, prospective;
      if code == FULL_TYPE || code == RECYCLABLE_FULL_TYPE {
        if inFragment && scratch != [] {
          ReportDrop(|scratch|, PartialRecord);
        }
        lastRecordOffset := offset;
        done, outcome := true, Record(fragment);
      } else if code == FIRST_TYPE || code == RECYCLABLE_FIRST_TYPE {
        if inFragment && scratch != [] {
          ReportDrop(|scratch|, PartialRecord);
        }
        inFragment', scratch', prospective' := true, fragment, offset;
      } else if code == MIDDLE_TYPE || code == RECYCLABLE_MIDDLE_TYPE {
        if !inFragment {
          ReportDrop(|fragment|, MissingStart);
        } else {
          scratch' := scratch + fragment;
        }
      } else {
        if !inFragment {
          ReportDrop(|fragment|, MissingStart);
        } else {
          lastRecordOffset := prospective;
          done, outcome := true, Record(scratch + fragment);
        }
      }
    }

    // The other cases.
    method OnOther(
      mode: Mode, inFragment: bool, scratch: Bytes, prospective: nat, offset: nat, code: nat, fragment: Bytes,
      drop: nat)
      returns (done: bool, outcome: Outcome, inFragment': bool, scratch': Bytes, prospective': nat)
      requires !(1 <= code <= 8)
      modifies this
      ensures Dispatch(config, mode, Local(inFragment, scratch, prospective), offset,
                       PhysicalResult(code, fragment, drop, old(Abs())))
           == if done then Return(outcome, Abs()) else Continue(Abs(), Local(inFragment', scratch', prospective'))
    {
      hide LogReader.ReportDrop;
      done, outcome := false, End;
      inFragment', scratch', prospective' := inFragment, scratch, prospective;
      if code == BAD_HEADER || code == EOF || (code == OLD_RECORD && mode != SkipAnyCorrupted) {
        if code == BAD_HEADER && mode == AbsoluteConsistency {
          ReportDrop(drop, TruncatedHeader);
        }
        if inFragment && mode == AbsoluteConsistency {
          ReportDrop(|scratch|, TrailingData);
        }
        done := true;
      } else if (code == BAD_RECORD_LEN || code == BAD_RECORD_CHECKSUM) && recycled && mode == TolerateCorruptedTail {
        done := true;
      } else if code == OLD_RECORD || code == BAD_RECORD || code == BAD_RECORD_LEN || code == BAD_RECORD_CHECKSUM {
        if code == BAD_RECORD_LEN {
          ReportDrop(drop, BadLength);
        } else if code == BAD_RECORD_CHECKSUM {
          ReportDrop(drop, BadChecksum);
        }
        if inFragment {
          ReportDrop(|scratch|, MiddleOfRecord);
        }
        inFragment', scratch' := false, [];
      } else {
        ReportDrop(|fragment| + (if inFragment then |scratch| else 0), UnknownType(code));
        inFragment', scratch' := false, [];
      }
    }

    method ReadRecord(mode: Mode) returns (outcome: Outcome)
      modifies this
      ensures LogReader.ReadRecord(config, mode, old(Abs())) == Result(outcome, Abs())
    {
      hide Step;
      if lastRecordOffset < config.initialOffset {
        var ok := SkipToInitialBlock();
        if !ok {
          return End;
        }
      }
      var inFragment, scratch, prospective := false, [], 0;
      ghost var start := Abs();
      assert LogReader.ReadRecord(config, mode, old(Abs())) == Loop(config, mode, start, IDLE);
      while true
        invariant Loop(config, mode, Abs(), Local(inFragment, scratch, prospective)) == Loop(config, mode, start, IDLE)
        decreases Unread(Abs()), |buffer|
      {
        var unread, size := Unread(Abs()), |buffer|;
        var done;
        done, outcome, inFragment, scratch, prospective := Iterate(mode, inFragment, scratch, prospective);
        if done {
          return;
        }
        if !(Unread(Abs()) < unread || (Unread(Abs()) == unread && |buffer| < size)) {
          return Spin;
        }
      }
    }

    method UnmarkEof()
      modifies this
      ensures Abs() == LogReader.UnmarkEof(config, old(Abs()))
    {
      hide LogReader.ReportDrop, Read;
      if readError {
        return;
      }
      eof := false;
      if eofOffset == 0 {
        return;
      }
      var remaining := BLOCK_SIZE - eofOffset;
      var r := Read(file, remaining);
      file := r.file;
      var added := |r.bytes|;
      endOfBuffer := endOfBuffer + added;
      if !r.ok {
        if added > 0 {
          ReportDrop(added, IoError);
        }
        readError := true;
        return;
      }
      buffer := buffer + r.bytes;
      if added < remaining {
        eof := true;
        eofOffset := eofOffset + added;
      } else {
        eofOffset := 0;
      }
    }
  }
}
