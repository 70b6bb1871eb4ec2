/**
 The log reader (rutil/log_reader.cc) as functions over its state: ReadMore, ReadPhysicalRecord,
 the record assembly loop of ReadRecord in its four recovery modes, SkipToInitialBlock and
 UnmarkEOF. The class of LogReaderClass.dfy runs these same transitions on mutable fields.
 */
module LogReader {
  import opened Coding
  import opened LogFormat
  import Crc = Crc32c

  // ---------- the sequential file ----------

  // Reads deliver the next bytes and are short only at the end of the data. The n-th call fails iff
  // n is a key of `faults`, which then says how many bytes of a read are delivered all the same.
  datatype FileState = FileState(data: Bytes, pos: nat, faults: map<nat, nat>, calls: nat)
  type File = f: FileState | f.pos <= |f.data| witness FileState([], 0, map[], 0)

  datatype FileRead = FileRead(ok: bool, bytes: Bytes, file: File)

  function Read(f: File, n: nat): (r: FileRead)
    ensures r.file.data == f.data && r.file.faults == f.faults
    ensures r.file.pos == f.pos + |r.bytes|
    ensures |r.bytes| <= Min(n, |f.data| - f.pos) && (r.ok ==> |r.bytes| == Min(n, |f.data| - f.pos))
  {
    var failed := f.calls in f.faults;
    var k := Min(if failed then Min(f.faults[f.calls], n) else n, |f.data| - f.pos);
    FileRead(!failed, f.data[f.pos..f.pos + k], f.(pos := f.pos + k, calls := f.calls + 1))
  }

  // Skipping stops at the end of the file.
  function Skip(f: File, n: nat): FileRead {
    if f.calls in f.faults then FileRead(false, [], f.(calls := f.calls + 1))
    else FileRead(true, [], f.(pos := Min(f.pos + n, |f.data|), calls := f.calls + 1))
  }

  // ---------- reader state ----------

  datatype Mode = TolerateCorruptedTail | AbsoluteConsistency | PointInTime | SkipAnyCorrupted

  datatype Reason =
    | PartialRecord | MissingStart | TruncatedHeader | TrailingData | MiddleOfRecord
    | BadLength | BadChecksum | UnknownType(code: nat) | IoError

  datatype Report = Report(bytes: nat, reason: Reason)

  type BlockOffset = x: nat | x < BLOCK_SIZE

  datatype Config = Config(checksum: bool, initialOffset: nat, logNumber: nat, reporting: bool)

  datatype State = State(
    file: File,
    buffer: Bytes,
    eof: bool,
    readError: bool,
    eofOffset: BlockOffset,
    lastRecordOffset: nat,
    endOfBuffer: nat,
    recycled: bool,
    reports: seq<Report>)

  function Initial(data: Bytes, faults: map<nat, nat>): State {
    State(FileState(data, 0, faults, 0), [], false, false, 0, 0, 0, false, [])
  }

  // Values ReadPhysicalRecord returns beside the record types; a type byte with one of these
  // values is taken for the special value.
  const EOF: nat := 9
  const BAD_RECORD: nat := 10
  const BAD_HEADER: nat := 11
  const OLD_RECORD: nat := 12
  const BAD_RECORD_LEN: nat := 13
  const BAD_RECORD_CHECKSUM: nat := 14

  // Unsigned 64-bit subtraction.
  function Sub64(a: nat, b: nat): nat {
    if a >= b then a - b else (a - b) % 0x1_0000_0000_0000_0000
  }

  function Position(s: State): nat {
    Sub64(s.endOfBuffer, |s.buffer|)
  }

  function ReportDrop(c: Config, s: State, bytes: nat, reason: Reason): (r: State)
    ensures r == s.(reports := r.reports) && s.reports <= r.reports
  {
    if c.reporting && Sub64(Position(s), bytes) >= c.initialOffset
    then s.(reports := s.reports + [Report(bytes, reason)])
    else s
  }

  // ---------- physical records ----------

  datatype More = More(ok: bool, code: nat, drop: nat, s: State)

  function ReadMore(c: Config, s: State): (m: More)
    ensures m.ok ==> Unread(m.s) < Unread(s)
    ensures !m.ok ==> Unread(m.s) <= Unread(s)
  {
    if !s.eof && !s.readError then
      var r := Read(s.file, BLOCK_SIZE);
      var s1 := s.(file := r.file, buffer := r.bytes, endOfBuffer := s.endOfBuffer + |r.bytes|);
      if !r.ok then
        More(false, EOF, 0, ReportDrop(c, s1.(buffer := []), BLOCK_SIZE, IoError).(readError := true))
      else if |r.bytes| < BLOCK_SIZE then
        More(true, 0, 0, s1.(eof := true, eofOffset := |r.bytes|))
      else
        More(true, 0, 0, s1)
    else if s.buffer != [] then
      More(false, BAD_HEADER, |s.buffer|, s.(buffer := []))
    else
      More(false, EOF, 0, s)
  }

  // How much a reader can still take from its file without another UnmarkEof.
  function Unread(s: State): nat {
    if s.eof || s.readError then 0 else 1 + |s.file.data| - s.file.pos
  }

  datatype PhysicalResult = PhysicalResult(code: nat, fragment: Bytes, drop: nat, s: State)

  // The header's type byte is a signed char widened to unsigned int.
  function TypeOf(b: Byte): nat {
    if b < 0x80 then b else 0xffff_ff00 + b as int
  }

  predicate IsRecyclableType(t: nat) {
    RECYCLABLE_FULL_TYPE <= t <= RECYCLABLE_LAST_TYPE
  }

  function ReadPhysical(c: Config, s: State): (r: PhysicalResult)
    ensures Unread(r.s) <= Unread(s)
    decreases Unread(s)
  {
    if |s.buffer| < HEADER_SIZE then
      var m := ReadMore(c, s);
      if m.ok then ReadPhysical(c, m.s) else PhysicalResult(m.code, [], m.drop, m.s)
    else
      var t := TypeOf(s.buffer[6]);
      var length := DecodeLength(s.buffer[4], s.buffer[5]);
      if IsRecyclableType(t) then
        var s1 := if Position(s) == 0 then s.(recycled := true) else s;
        if |s.buffer| < RECYCLABLE_HEADER_SIZE then
          var m := ReadMore(c, s1);
          if m.ok then ReadPhysical(c, m.s) else PhysicalResult(m.code, [], m.drop, m.s)
        else if DecodeFixed32(s.buffer[7..]) != c.logNumber then
          PhysicalResult(OLD_RECORD, [], 0, s1)
        else
          ReadPayload(c, s1, t, RECYCLABLE_HEADER_SIZE, length)
      else
        ReadPayload(c, s, t, HEADER_SIZE, length)
  }

  function ReadPayload(c: Config, s: State, t: nat, headerSize: nat, length: nat): (r: PhysicalResult)
    requires HEADER_SIZE <= headerSize <= |s.buffer|
    ensures Unread(r.s) == Unread(s)
  {
    var size := headerSize + length;
    var cleared := s.(buffer := []);
    if size > |s.buffer| then
      PhysicalResult(if s.eof then BAD_HEADER else BAD_RECORD_LEN, [], |s.buffer|, cleared)
    else if t == ZERO_TYPE && length == 0 then
      PhysicalResult(BAD_RECORD, [], 0, cleared)
    else if c.checksum && Crc.Unmask(DecodeFixed32(s.buffer)) != Crc.Value(s.buffer[6..size]) then
      PhysicalResult(BAD_RECORD_CHECKSUM, [], |s.buffer|, cleared)
    else
      var s1 := s.(buffer := s.buffer[size..]);
      if Position(s) < c.initialOffset then PhysicalResult(BAD_RECORD, [], 0, s1)
      else PhysicalResult(t, s.buffer[headerSize..size], 0, s1)
  }

  // ---------- logical records ----------

  datatype Outcome = Record(bytes: Bytes) | End | Spin

  // The local variables of the assembly loop.
  datatype Local = Local(inFragment: bool, scratch: Bytes, prospective: nat)

  datatype StepResult = Return(outcome: Outcome, s: State) | Continue(s: State, l: Local)

  // What one iteration does with a physical record that started at `offset`.
  function Dispatch(c: Config, mode: Mode, l: Local, offset: nat, r: PhysicalResult): (d: StepResult)
    ensures d.s == r.s.(reports := d.s.reports, lastRecordOffset := d.s.lastRecordOffset)
    ensures (d.Return? && d.outcome.Record?) || d.s.lastRecordOffset == r.s.lastRecordOffset
  {
    hide Unfinished, Trailing, Interrupted, ReportDrop;
    var s := r.s;
    var idle := l.(inFragment := false, scratch := []);
    if r.code == FULL_TYPE || r.code == RECYCLABLE_FULL_TYPE then
      Return(Record(r.fragment), Unfinished(c, s, l).(lastRecordOffset := offset))
    else if r.code == FIRST_TYPE || r.code == RECYCLABLE_FIRST_TYPE then
      Continue(Unfinished(c, s, l), Local(true, r.fragment, offset))
    else if r.code == MIDDLE_TYPE || r.code == RECYCLABLE_MIDDLE_TYPE then
      if !l.inFragment then Continue(ReportDrop(c, s, |r.fragment|, MissingStart), l)
      else Continue(s, l.(scratch := l.scratch + r.fragment))
    else if r.code == LAST_TYPE || r.code == RECYCLABLE_LAST_TYPE then
      if !l.inFragment then Continue(ReportDrop(c, s, |r.fragment|, MissingStart), l)
      else Return(Record(l.scratch + r.fragment), s.(lastRecordOffset := l.prospective))
    else if r.code == BAD_HEADER then
      var s1 := if mode.AbsoluteConsistency? then ReportDrop(c, s, r.drop, TruncatedHeader) else s;
      Return(End, Trailing(c, mode, s1, l))
    else if r.code == EOF then
      Return(End, Trailing(c, mode, s, l))
    else if r.code == OLD_RECORD && !mode.SkipAnyCorrupted? then
      Return(End, Trailing(c, mode, s, l))
    else if r.code == OLD_RECORD || r.code == BAD_RECORD then
      Continue(Interrupted(c, s, l), idle)
    else if r.code == BAD_RECORD_LEN || r.code == BAD_RECORD_CHECKSUM then
      if s.recycled && mode.TolerateCorruptedTail? then Return(End, s)
      else
        var s1 := ReportDrop(c, s, r.drop, if r.code == BAD_RECORD_LEN then BadLength else BadChecksum);
        Continue(Interrupted(c, s1, l), idle)
    else
      Continue(ReportDrop(c, s, |r.fragment| + (if l.inFragment then |l.scratch| else 0), UnknownType(r.code)), idle)
  }

  function Unfinished(c: Config, s: State, l: Local): (r: State)
    ensures r == s.(reports := r.reports)
  {
    if l.inFragment && l.scratch != [] then ReportDrop(c, s, |l.scratch|, PartialRecord) else s
  }

  function Trailing(c: Config, mode: Mode, s: State, l: Local): (r: State)
    ensures r == s.(reports := r.reports)
  {
    if l.inFragment && mode.AbsoluteConsistency? then ReportDrop(c, s, |l.scratch|, TrailingData) else s
  }

  function Interrupted(c: Config, s: State, l: Local): (r: State)
    ensures r == s.(reports := r.reports)
  {
    if l.inFragment then ReportDrop(c, s, |l.scratch|, MiddleOfRecord) else s
  }

  function Step(c: Config, mode: Mode, s: State, l: Local): StepResult {
    Dispatch(c, mode, l, Position(s), ReadPhysical(c, s))
  }

  predicate Progress(s: State, s': State) {
    Unread(s') < Unread(s) || (Unread(s') == Unread(s) && |s'.buffer| < |s.buffer|)
  }

  datatype Result = Result(outcome: Outcome, s: State)

  // The `while (true)` loop of ReadRecord. An iteration that makes no progress is repeated for
  // ever by the source; the outcome is then Spin.
  function Loop(c: Config, mode: Mode, s: State, l: Local): Result
    decreases Unread(s), |s.buffer|
  {
    match Step(c, mode, s, l)
    case Return(outcome, s') => Result(outcome, s')
    case Continue(s', l') => if Progress(s, s') then Loop(c, mode, s', l') else Result(Spin, s')
  }

  function BlockStart(c: Config): nat {
    var inBlock := c.initialOffset % BLOCK_SIZE;
    c.initialOffset - inBlock + if inBlock > BLOCK_SIZE - 6 then BLOCK_SIZE else 0
  }

  datatype SkipResult = SkipResult(ok: bool, s: State)

  function SkipToInitialBlock(c: Config, s: State): SkipResult {
    var start := BlockStart(c);
    var s1 := s.(endOfBuffer := start);
    if start > 0 then
      var r := Skip(s.file, start);
      var s2 := s1.(file := r.file);
      if r.ok then SkipResult(true, s2) else SkipResult(false, ReportDrop(c, s2, start, IoError))
    else SkipResult(true, s1)
  }

  const IDLE: Local := Local(false, [], 0)

  function ReadRecord(c: Config, mode: Mode, s: State): Result {
    if s.lastRecordOffset < c.initialOffset then
      var k := SkipToInitialBlock(c, s);
      if k.ok then Loop(c, mode, k.s, IDLE) else Result(End, k.s)
    else Loop(c, mode, s, IDLE)
  }

  // ---------- resuming after the end of the file ----------

  function UnmarkEof(c: Config, s: State): State {
    if s.readError then s
    else if s.eofOffset == 0 then s.(eof := false)
    else
      var remaining := BLOCK_SIZE - s.eofOffset;
      var r := Read(s.file, remaining);
      var s1 := s.(eof := false, file := r.file, endOfBuffer := s.endOfBuffer + |r.bytes|);
      if !r.ok then
        (if |r.bytes| > 0 then ReportDrop(c, s1, |r.bytes|, IoError) else s1).(readError := true)
      else
        var s2 := s1.(buffer := s.buffer + r.bytes);
        if |r.bytes| < remaining then s2.(eof := true, eofOffset := s.eofOffset + |r.bytes|)
        else s2.(eofOffset := 0)
  }
}
