/**
 What a checksumming reader can return from arbitrary bytes (rutil/log_reader.cc:74-225, 343-431):
 only records whose fragments lie in the file, back to back, exactly as the writer formats them.
 */
module LogSoundness {
  import opened Coding
  import opened LogFormat
  import opened LogReader
  import Crc = Crc32c

  // The buffer is the stretch of the file that ends at the file position.
  predicate Loaded(s: State) {
    |s.buffer| <= s.file.pos && s.buffer == s.file.data[s.file.pos - |s.buffer|..s.file.pos]
  }

  // The file offset of the next byte to parse.
  function At(s: State): nat
    requires Loaded(s)
  {
    s.file.pos - |s.buffer|
  }

  datatype Fragment = Fragment(at: nat, t: Byte, payload: Bytes)

  function FormatOf(c: Config, t: nat): Format {
    Format(IsRecyclableType(t), c.logNumber)
  }

  function FragmentEnd(c: Config, x: Fragment): nat {
    x.at + FormatOf(c, x.t).HeaderSize() + |x.payload|
  }

  // The file holds, at x.at, the physical record the writer would have written for x.
  ghost predicate Genuine(c: Config, data: Bytes, x: Fragment) {
    && |x.payload| <= 0xffff
    && FragmentEnd(c, x) <= |data|
    && data[x.at..FragmentEnd(c, x)] == Physical(FormatOf(c, x.t), x.t, x.payload)
  }

  // Nothing but the tail of a block too short for a header lies between offsets p and q.
  predicate Adjacent(data: Bytes, p: nat, q: nat) {
    || q == p
    || p < q < p + HEADER_SIZE
    || (p + HEADER_SIZE <= q < p + RECYCLABLE_HEADER_SIZE && q <= |data| && IsRecyclableType(TypeOf(data[p + 6])))
  }

  function LegacyType(t: nat): nat {
    if IsRecyclableType(t) then t - 4 else t
  }

  // A run of fragments that starts a record: First Middle*, all genuine, each adjacent to the next.
  ghost predicate Opening(c: Config, data: Bytes, xs: seq<Fragment>) {
    && xs != []
    && LegacyType(xs[0].t) == FIRST_TYPE
    && (forall i :: 0 < i < |xs| ==> LegacyType(xs[i].t) == MIDDLE_TYPE)
    && Connected(c, data, xs)
  }

  ghost predicate Connected(c: Config, data: Bytes, xs: seq<Fragment>) {
    && (forall i :: 0 <= i < |xs| ==> Genuine(c, data, xs[i]))
    && (forall i, j :: 0 <= i && j == i + 1 && j < |xs| ==> Adjacent(data, FragmentEnd(c, xs[i]), xs[j].at))
  }

  function Payloads(xs: seq<Fragment>): Bytes {
    if xs == [] then [] else Payloads(xs[..|xs| - 1]) + xs[|xs| - 1].payload
  }

  // One Full fragment, or First Middle* Last.
  ghost predicate Assembles(c: Config, data: Bytes, xs: seq<Fragment>, record: Bytes) {
    && xs != []
    && record == Payloads(xs)
    && Connected(c, data, xs)
    && var n := |xs| - 1;
       if n == 0 then LegacyType(xs[0].t) == FULL_TYPE
       else Opening(c, data, xs[..n]) && LegacyType(xs[n].t) == LAST_TYPE
  }

  predicate Beyond(xs: seq<Fragment>, floor: nat) {
    forall i :: 0 <= i < |xs| ==> floor <= xs[i].at
  }

  // The file holds the record, from the offset `floor` on.
  ghost predicate InFile(c: Config, data: Bytes, floor: nat, record: Bytes) {
    exists xs :: Assembles(c, data, xs, record) && Beyond(xs, floor)
  }

  lemma PayloadsAppend(xs: seq<Fragment>, x: Fragment)
    ensures Payloads(xs + [x]) == Payloads(xs) + x.payload
  {
    assert (xs + [x])[..|xs + [x]| - 1] == xs;
  }

  // ---------- one physical record ----------

  // The fragment that a physical read has just consumed.
  function Taken(c: Config, r: PhysicalResult): Fragment
    requires Loaded(r.s) && 1 <= r.code <= 8 && TakenSize(c, r) <= At(r.s)
  {
    Fragment(At(r.s) - TakenSize(c, r), r.code, r.fragment)
  }

  function TakenSize(c: Config, r: PhysicalResult): nat {
    FormatOf(c, r.code).HeaderSize() + |r.fragment|
  }

  // A physical read from offset `from` that yields a record type has found a genuine fragment,
  // and found it at `from` itself when `here` holds.
  ghost predicate Found(c: Config, data: Bytes, from: nat, here: bool, r: PhysicalResult) {
    && Loaded(r.s) && r.s.file.data == data && At(r.s) >= from
    && (1 <= r.code <= 8 ==>
          && TakenSize(c, r) <= At(r.s)
          && Genuine(c, data, Taken(c, r))
          && (if here then Taken(c, r).at == from else Adjacent(data, from, Taken(c, r).at)))
  }

  // A header, if there is one, starts right at the buffer.
  predicate HeaderHere(s: State) {
    s.eof || s.readError || |s.buffer| >= RECYCLABLE_HEADER_SIZE
  }

  // A header that passes the checks is the header the writer produces.
  lemma HeaderIsGenuine(f: Format, b: Bytes, t: Byte)
    requires |b| >= f.HeaderSize()
    requires b[6] == t && DecodeLength(b[4], b[5]) == |b| - f.HeaderSize()
    requires f.recycle ==> DecodeFixed32(b[7..]) == f.logNumber
    requires Crc.Unmask(DecodeFixed32(b)) == Crc.Value(b[6..])
    ensures b == Physical(f, t, b[f.HeaderSize()..])
  {
    hide Crc.Value, Crc.Mask, Crc.Unmask, DecodeFixed32, EncodeFixed32;
    var h := f.HeaderSize();
    var payload := b[h..];
    HeaderWords(f, b);
    Crc.UnmaskRoundTrip(DecodeFixed32(b));
    assert b[6..] == [t] + f.NumberBytes() + payload by { assert b[6..] == [b[6]] + b[7..h] + b[h..]; }
    assert EncodeLength(|payload|) == b[4..6];
    assert b == b[..4] + b[4..6] + [t] + b[7..h] + payload;
  }

  // The checksum and the log number in a header are the encodings of what is decoded from them.
  lemma HeaderWords(f: Format, b: Bytes)
    requires |b| >= f.HeaderSize()
    requires f.recycle ==> DecodeFixed32(b[7..]) == f.logNumber
    ensures EncodeFixed32(DecodeFixed32(b)) == b[..4] && f.NumberBytes() == b[7..f.HeaderSize()]
  {
    hide DecodeFixed32, EncodeFixed32;
    Fixed32Injective(b[..4]);
    assert b[..4][..4] == b[..4];
    DecodePrefix(b, b[..4]);
    if f.recycle {
      Fixed32Injective(b[7..11]);
      assert b[7..][..4] == b[7..11] == b[7..11][..4];
      DecodePrefix(b[7..], b[7..11]);
    }
  }

  lemma PayloadCases(c: Config, s: State, t: nat, headerSize: nat, length: nat)
    requires HEADER_SIZE <= headerSize <= |s.buffer|
    ensures var r := ReadPayload(c, s, t, headerSize, length);
            var size := headerSize + length;
            && r.s.file == s.file
            && (1 <= r.code <= 8 ==>
                  && r.code == t && size <= |s.buffer|
                  && r.s.buffer == s.buffer[size..] && r.fragment == s.buffer[headerSize..size]
                  && (c.checksum ==> Crc.Unmask(DecodeFixed32(s.buffer)) == Crc.Value(s.buffer[6..size])))
            && (!(1 <= r.code <= 8) ==> r.s.buffer == [] || (size <= |s.buffer| && r.s.buffer == s.buffer[size..]))
  {
    hide Crc.Value, Crc.Unmask, DecodeFixed32, Sub64;
  }

  lemma DropIsLoaded(s: State, s': State, n: nat)
    requires Loaded(s) && n <= |s.buffer| && s'.file == s.file && s'.buffer == s.buffer[n..]
    ensures Loaded(s') && At(s') == At(s) + n
  {
  }

  lemma IsGenuine(c: Config, data: Bytes, x: Fragment, b: Bytes)
    requires |x.payload| <= 0xffff && FragmentEnd(c, x) <= |data|
    requires data[x.at..FragmentEnd(c, x)] == b == Physical(FormatOf(c, x.t), x.t, x.payload)
    ensures Genuine(c, data, x)
  {
  }

  lemma PayloadSound(c: Config, s: State, t: Byte, headerSize: nat)
    requires c.checksum && Loaded(s) && |s.buffer| >= headerSize == FormatOf(c, t).HeaderSize()
    requires s.buffer[6] == t
    requires IsRecyclableType(t) ==> DecodeFixed32(s.buffer[7..]) == c.logNumber
    ensures Found(c, s.file.data, At(s), true, ReadPayload(c, s, t, headerSize, DecodeLength(s.buffer[4], s.buffer[5])))
  {
    hide Crc.Value, Crc.Unmask, Physical, DecodeLength, DecodeFixed32, ReadPayload, Adjacent, Genuine;
    var length := DecodeLength(s.buffer[4], s.buffer[5]);
    var r := ReadPayload(c, s, t, headerSize, length);
    PayloadCases(c, s, t, headerSize, length);
    var size := headerSize + length;
    if 1 <= r.code <= 8 {
      DropIsLoaded(s, r.s, size);
      PayloadGenuine(c, s, t, headerSize, length);
    } else {
      DropIsLoaded(s, r.s, if r.s.buffer == [] then |s.buffer| else size);
    }
  }

  lemma PayloadGenuine(c: Config, s: State, t: Byte, headerSize: nat, length: nat)
    requires Loaded(s) && headerSize == FormatOf(c, t).HeaderSize() && headerSize + length <= |s.buffer|
    requires s.buffer[6] == t && length == DecodeLength(s.buffer[4], s.buffer[5]) <= 0xffff
    requires IsRecyclableType(t) ==> DecodeFixed32(s.buffer[7..]) == c.logNumber
    requires Crc.Unmask(DecodeFixed32(s.buffer)) == Crc.Value(s.buffer[6..headerSize + length])
    ensures Genuine(c, s.file.data, Fragment(At(s), t, s.buffer[headerSize..headerSize + length]))
  {
    hide Crc.Value, Crc.Unmask, Physical, DecodeLength, DecodeFixed32, Genuine;
    var size := headerSize + length;
    var b := s.buffer[..size];
    assert b[6..] == s.buffer[6..size];
    assert b[..4] == s.buffer[..4];
    DecodePrefix(b, s.buffer);
    if IsRecyclableType(t) {
      assert b[7..][..4] == s.buffer[7..][..4];
      DecodePrefix(b[7..], s.buffer[7..]);
    }
    HeaderIsGenuine(FormatOf(c, t), b, t);
    assert b == s.file.data[At(s)..At(s) + size];
    assert b[headerSize..] == s.buffer[headerSize..size];
    IsGenuine(c, s.file.data, Fragment(At(s), t, s.buffer[headerSize..size]), b);
  }

  lemma MoreIsLoaded(c: Config, s: State)
    requires Loaded(s)
    ensures var m := ReadMore(c, s);
            && Loaded(m.s) && m.s.file.data == s.file.data && At(m.s) >= s.file.pos
            && (m.ok ==> At(m.s) == s.file.pos && HeaderHere(m.s) && !s.eof && !s.readError)
            && (!m.ok ==> !(1 <= m.code <= 8))
  {
  }

  lemma {:induction false} PhysicalSound(c: Config, s: State)
    requires c.checksum && Loaded(s)
    ensures Found(c, s.file.data, At(s), HeaderHere(s), ReadPhysical(c, s))
    decreases Unread(s)
  {
    hide ReadMore, ReadPayload, Found, DecodeFixed32, DecodeLength, Position;
    FoundHere(c, s, ReadPhysical(c, s));
    if |s.buffer| < HEADER_SIZE {
      MoreThenPhysical(c, s, s);
    } else {
      var b := s.buffer[6];
      if IsRecyclableType(TypeOf(b)) {
        var s1 := if Position(s) == 0 then s.(recycled := true) else s;
        if |s.buffer| < RECYCLABLE_HEADER_SIZE {
          MoreThenPhysical(c, s, s1);
        } else if DecodeFixed32(s.buffer[7..]) == c.logNumber {
          PayloadSound(c, s1, b, RECYCLABLE_HEADER_SIZE);
        }
      } else if b < 0x80 {
        PayloadSound(c, s, b, HEADER_SIZE);
      } else {
        UnknownByte(c, s, TypeOf(b), DecodeLength(s.buffer[4], s.buffer[5]));
      }
    }
  }

  // A fragment found at once is adjacent too, and an old record leaves the buffer.
  lemma FoundHere(c: Config, s: State, r: PhysicalResult)
    requires Loaded(s)
    ensures Found(c, s.file.data, At(s), true, r) ==> Found(c, s.file.data, At(s), false, r)
    ensures r.code == OLD_RECORD && r.s == s.(recycled := r.s.recycled) ==> Found(c, s.file.data, At(s), true, r)
  {
    hide Genuine;
  }

  lemma UnknownByte(c: Config, s: State, t: nat, length: nat)
    requires Loaded(s) && |s.buffer| >= HEADER_SIZE && t >= 0x80
    ensures Found(c, s.file.data, At(s), true, ReadPayload(c, s, t, HEADER_SIZE, length))
  {
    hide Genuine, ReadPayload;
    PayloadCases(c, s, t, HEADER_SIZE, length);
    var r := ReadPayload(c, s, t, HEADER_SIZE, length);
    DropIsLoaded(s, r.s, if r.s.buffer == [] then |s.buffer| else HEADER_SIZE + length);
  }

  // A header that does not fit in the rest of the block is looked for in the next one.
  lemma {:induction false} MoreThenPhysical(c: Config, s: State, s1: State)
    requires c.checksum && Loaded(s)
    requires s1 == s || s1 == s.(recycled := true)
    requires |s.buffer| < HEADER_SIZE || (|s.buffer| < RECYCLABLE_HEADER_SIZE && IsRecyclableType(TypeOf(s.buffer[6])))
    ensures var m := ReadMore(c, s1);
            && (m.ok ==> !HeaderHere(s) && Found(c, s.file.data, At(s), false, ReadPhysical(c, m.s)))
            && (!m.ok ==> Found(c, s.file.data, At(s), HeaderHere(s), PhysicalResult(m.code, [], m.drop, m.s)))
    decreases Unread(s), 0
  {
    hide ReadPhysical, Genuine, ReadMore;
    MoreIsLoaded(c, s1);
    var m := ReadMore(c, s1);
    if m.ok {
      PhysicalSound(c, m.s);
      var p, q := At(s), s.file.pos;
      assert Adjacent(s.file.data, p, q) by {
        assert |s.buffer| >= HEADER_SIZE ==> s.buffer[6] == s.file.data[p + 6];
      }
    }
  }

  // ---------- one logical record ----------

  // A loop that is inside a record has read its fragments, beyond the floor, up to the current offset.
  ghost predicate Explained(c: Config, floor: nat, s: State, l: Local, xs: seq<Fragment>) {
    && Loaded(s) && At(s) >= floor && Beyond(xs, floor)
    && (l.inFragment ==>
          && Opening(c, s.file.data, xs)
          && FragmentEnd(c, xs[|xs| - 1]) == At(s)
          && l.scratch == Payloads(xs))
  }

  lemma OpeningAppend(c: Config, data: Bytes, xs: seq<Fragment>, x: Fragment)
    requires Opening(c, data, xs) && Genuine(c, data, x)
    requires Adjacent(data, FragmentEnd(c, xs[|xs| - 1]), x.at)
    ensures LegacyType(x.t) == MIDDLE_TYPE ==> Opening(c, data, xs + [x])
    ensures LegacyType(x.t) == LAST_TYPE ==> Assembles(c, data, xs + [x], Payloads(xs) + x.payload)
  {
    hide Genuine, Adjacent;
    PayloadsAppend(xs, x);
    var ys := xs + [x];
    assert ys[..|ys| - 1] == xs;
    assert Connected(c, data, ys);
  }

  lemma AdjacentHere(data: Bytes, p: nat)
    ensures Adjacent(data, p, p)
  {
  }

  lemma AdjacentAhead(data: Bytes, p: nat, q: nat)
    ensures Adjacent(data, p, q) ==> p <= q
  {
  }

  lemma SingleFragment(c: Config, data: Bytes, x: Fragment)
    requires Genuine(c, data, x)
    ensures Payloads([x]) == x.payload
    ensures LegacyType(x.t) == FULL_TYPE ==> Assembles(c, data, [x], x.payload)
    ensures LegacyType(x.t) == FIRST_TYPE ==> Opening(c, data, [x])
  {
    hide Genuine;
    assert [x][..0] == [];
    assert Payloads([x]) == [] + x.payload;
  }

  // The ways a loop iteration can return a record or stay inside one.
  lemma DispatchCases(c: Config, mode: Mode, l: Local, offset: nat, r: PhysicalResult)
    ensures var d := Dispatch(c, mode, l, offset, r);
            && d.s.file == r.s.file && d.s.buffer == r.s.buffer
            && (d.Return? && d.outcome.Record? ==>
                  && 1 <= r.code <= 8
                  && (|| (LegacyType(r.code) == FULL_TYPE && d.outcome.bytes == r.fragment)
                      || (LegacyType(r.code) == LAST_TYPE && l.inFragment
                        && d.outcome.bytes == l.scratch + r.fragment)))
            && (d.Continue? && d.l.inFragment ==>
                  && 1 <= r.code <= 8
                  && (|| (LegacyType(r.code) == FIRST_TYPE && d.l.scratch == r.fragment)
                      || (LegacyType(r.code) == MIDDLE_TYPE && l.inFragment && d.l.scratch == l.scratch + r.fragment)))
  {
    hide ReportDrop, Unfinished, Trailing, Interrupted;
  }

  // What a step of the loop hands on, and what it returns, is explained by fragments.
  lemma StepSound(
    c: Config, floor: nat, mode: Mode, s: State, l: Local, xs: seq<Fragment>) returns (ys: seq<Fragment>)
    requires c.checksum && Explained(c, floor, s, l, xs)
    ensures Beyond(ys, floor)
    ensures var r := Step(c, mode, s, l);
            && Loaded(r.s) && r.s.file.data == s.file.data && At(r.s) >= floor
            && (r.Continue? ==> Explained(c, floor, r.s, r.l, ys))
            && (r.Return? && r.outcome.Record? ==> Assembles(c, s.file.data, ys, r.outcome.bytes))
  {
    hide ReadPhysical, Dispatch, Genuine, Adjacent, Payloads, Opening, Connected, Assembles;
    PhysicalSound(c, s);
    var r := ReadPhysical(c, s);
    DispatchCases(c, mode, l, Position(s), r);
    var data := s.file.data;
    ys := xs;
    if 1 <= r.code <= 8 {
      var x := Taken(c, r);
      AdjacentHere(data, At(s));
      AdjacentAhead(data, At(s), x.at);
      if LegacyType(r.code) == FULL_TYPE || LegacyType(r.code) == FIRST_TYPE {
        ys := [x];
        SingleFragment(c, data, x);
      } else if l.inFragment {
        OpeningNonempty(c, data, xs);
        OpeningAppend(c, data, xs, x);
        PayloadsAppend(xs, x);
        ys := xs + [x];
      }
    }
  }

  lemma OpeningNonempty(c: Config, data: Bytes, xs: seq<Fragment>)
    requires Opening(c, data, xs)
    ensures xs != []
  {
  }

  lemma {:induction false} LoopSound(c: Config, floor: nat, mode: Mode, s: State, l: Local, xs: seq<Fragment>)
    requires c.checksum && Explained(c, floor, s, l, xs)
    ensures var r := Loop(c, mode, s, l);
            && Loaded(r.s) && r.s.file.data == s.file.data && At(r.s) >= floor
            && (r.outcome.Record? ==> InFile(c, s.file.data, floor, r.outcome.bytes))
    decreases Unread(s), |s.buffer|
  {
    hide Step, Explained, Assembles;
    var ys := StepSound(c, floor, mode, s, l, xs);
    match Step(c, mode, s, l)
    case Return(_, _) =>
    case Continue(s', l') =>
      if Progress(s, s') {
        LoopSound(c, floor, mode, s', l', ys);
      }
  }

  // ---------- resuming and growing ----------

  function Rewound(s: State, p: nat): State
    requires p <= |s.file.data|
  {
    s.(file := s.file.(pos := p))
  }

  // The loading invariant survives a resumption, unless its read fails after some bytes, and the file
  // growing meanwhile.
  lemma UnmarkKeepsLoaded(c: Config, s: State)
    requires Loaded(s)
    ensures var u := UnmarkEof(c, s);
            && s.file.pos <= u.file.pos
            && if u.readError && !s.readError then
                 Loaded(Rewound(u, s.file.pos)) && At(Rewound(u, s.file.pos)) == At(s)
               else
                 Loaded(u) && At(u) == At(s)
  {
    hide Loaded, Read;
    LoadedAt(s);
    var r := Read(s.file, BLOCK_SIZE - s.eofOffset);
    ReadIsSlice(s.file, BLOCK_SIZE - s.eofOffset);
    var d, p, q := s.file.data, At(s), s.file.pos;
    var u := UnmarkEof(c, s);
    assert d[p..q] + d[q..r.file.pos] == d[p..r.file.pos];
    if u.readError && !s.readError {
      LoadedFrom(Rewound(u, q), p);
    } else {
      LoadedFrom(u, p);
    }
  }

  lemma LoadedAt(s: State)
    requires Loaded(s)
    ensures At(s) <= s.file.pos && s.buffer == s.file.data[At(s)..s.file.pos]
  {
  }

  lemma ReadIsSlice(f: File, n: nat)
    ensures var r := Read(f, n);
            r.bytes == f.data[f.pos..r.file.pos]
  {
  }

  lemma LoadedFrom(s: State, p: nat)
    requires p <= s.file.pos && s.buffer == s.file.data[p..s.file.pos]
    ensures Loaded(s) && At(s) == p
  {
  }

  function Grown(s: State, more: Bytes): State {
    s.(file := s.file.(data := s.file.data + more))
  }

  lemma GrowthKeepsLoaded(s: State, more: Bytes)
    requires Loaded(s)
    ensures Loaded(Grown(s, more)) && At(Grown(s, more)) == At(s)
  {
    assert (s.file.data + more)[At(s)..s.file.pos] == s.file.data[At(s)..s.file.pos];
  }
}
