/**
 The log writer (rutil/log_writer.cc): record fragmentation over blocks, on top of the buffering file
 writer, over a file whose calls may fail.
 */
module LogWriter {
  import opened Coding
  import opened Masks
  import opened LogFormat
  import opened LogDestination
  import opened AlignedBuffer
  import FileWriter
  import Crc = Crc32c

  // What the bytes after `before` are: all of `image`, or a prefix of it when a call failed.
  ghost predicate Emitted(before: Bytes, after: Bytes, image: Bytes, ok: bool) {
    before <= after && after[|before|..] <= image && (ok ==> after == before + image)
  }

  lemma EmittedTwice(a: Bytes, b: Bytes, c: Bytes, x: Bytes, y: Bytes, ok: bool)
    requires Emitted(a, b, x, true) && Emitted(b, c, y, ok)
    ensures Emitted(a, c, x + y, ok)
  {
    assert c[|a|..] == x + c[|b|..];
  }

  lemma EmittedNothing(a: Bytes)
    ensures Emitted(a, a, [], true)
  {
  }

  lemma AppendEmits(before: Bytes, data: Bytes, k: nat, ok: bool)
    requires k <= |data| && (ok ==> k == |data|)
    ensures Emitted(before, before + data[..k], data, ok)
    ensures ok ==> |before + data[..k]| == |before| + |data|
  {
    assert data[..|data|] == data;
  }

  lemma EmittedAnyway(before: Bytes, after: Bytes, image: Bytes, ok: bool)
    requires Emitted(before, after, image, true)
    ensures Emitted(before, after, image, ok)
  {
  }

  lemma EmittedPart(before: Bytes, after: Bytes, sent: Bytes, rest: Bytes, ok: bool)
    requires Emitted(before, after, sent, ok)
    ensures !ok || rest == [] ==> Emitted(before, after, sent + rest, ok)
  {
    assert rest == [] ==> sent + rest == sent;
  }

  // One more piece of an image of which `sent` is out already and `rest` is still to come.
  lemma EmittedPiece(a: Bytes, b: Bytes, c: Bytes, sent: Bytes, more: Bytes, rest: Bytes, ok: bool)
    requires Emitted(a, b, sent, true) && Emitted(b, c, more, ok)
    ensures Emitted(a, c, sent + more, ok)
    ensures ok ==> |c| == |a| + |sent| + |more|
    ensures !ok || rest == [] ==> Emitted(a, c, sent + more + rest, ok)
  {
    EmittedTwice(a, b, c, sent, more, ok);
    assert sent + more <= sent + more + rest;
    assert rest == [] ==> sent + more + rest == sent + more;
  }

  class Writer {
    const dest: Destination
    const format: Format
    const typeCrc: seq<Word>
    var blockOffset: nat
    // The records added so far.
    ghost var records: seq<Bytes>

    ghost predicate Valid()
      reads this, dest.Memory()
    {
      && dest.Valid() && this !in dest.Memory()
      && blockOffset <= BLOCK_SIZE
      && |typeCrc| == 9
      && forall t :: 0 <= t < 9 ==> typeCrc[t] == Crc.Value([t])
    }

    // The file writer has taken exactly the log of `records`, and the block offset is that of its end.
    ghost predicate Clean()
      reads this, dest
    {
      && dest.contents == LogBytes(format, 0, records)
      && blockOffset % BLOCK_SIZE == |dest.contents| % BLOCK_SIZE
    }

    // Moreover all of it is in the file, and the file size counts it.
    ghost predicate Healthy()
      reads this, dest.Memory()
    {
      Clean() && dest.out.Whole() && dest.out.Flushed()
    }

    constructor (dest: Destination, logNumber: nat, recycle: bool)
      requires dest.Valid() && dest.contents == []
      ensures Valid() && Clean() && records == [] && blockOffset == 0
      ensures this.dest == dest && format == Format(recycle, logNumber)
    {
      hide FileWriter.WritableFileWriter.Valid;
      this.dest, format := dest, Format(recycle, logNumber);
      blockOffset, records := 0, [];
      var crcs: seq<Word> := [];
      for i := 0 to 9
        invariant |crcs| == i
        invariant forall t :: 0 <= t < i ==> crcs[t] == Crc.Value([t])
      {
        hide Crc.Value;
        var t: Byte := i;
        var crc := Crc.ExtendImpl(0, [t], 0);
        assert crc == Crc.Value([t]) by { ValueIsExtend([t]); }
        crcs := crcs + [crc];
      }
      typeCrc := crcs;
    }

    static lemma ValueIsExtend(data: Bytes)
      ensures Crc.Value(data) == Crc.Extend(0, data)
    {
    }

    // The checksum built up from the precomputed type checksum is the one over the whole record.
    static lemma PhysicalCrc(f: Format, t: Byte, payload: Bytes)
      ensures Crc.Extend(Crc.Extend(Crc.Value([t]), f.NumberBytes()), payload)
           == Crc.Value([t] + f.NumberBytes() + payload)
      ensures !f.recycle ==> Crc.Extend(Crc.Value([t]), payload) == Crc.Value([t] + f.NumberBytes() + payload)
    {
      hide Crc.Extend;
      Crc.ExtendComposes(0, [t], f.NumberBytes());
      Crc.ExtendComposes(0, [t] + f.NumberBytes(), payload);
      Crc.ExtendComposes(0, [t], payload);
      if !f.recycle {
        assert [t] + f.NumberBytes() + payload == [t] + payload;
      }
    }

    method EmitPhysicalRecord(t: Byte, payload: Bytes) returns (ok: bool)
      requires Valid()
      requires 1 <= t <= 8 && (t >= RECYCLABLE_FULL_TYPE <==> format.recycle)
      requires blockOffset + format.HeaderSize() + |payload| <= BLOCK_SIZE
      modifies this`blockOffset, dest.Memory()
      ensures Valid() && (dest.out.buf.mem == old(dest.out.buf.mem) || fresh(dest.out.buf.mem))
      ensures blockOffset == old(blockOffset) + format.HeaderSize() + |payload|
      ensures old(dest.calls) < dest.calls && dest.Recalls(old(dest.faults), old(dest.calls))
      ensures ok == dest.Sound(old(dest.calls), dest.calls)
      ensures Emitted(old(dest.contents), dest.contents, Physical(format, t, payload), ok)
      ensures dest.Stored(old(dest.Now()), dest.Now(), ok, dest.out.Flushed(), dest.Behind())
      ensures dest.Buffered(old(dest.Now()), dest.Now(), format.HeaderSize() + |payload|,
                            |dest.contents| - |old(dest.contents)|, ok)
    {
      hide Crc.Extend, Crc.Value, Crc.Mask, Emitted, Destination.Stored, Destination.Buffered,
           FileWriter.WritableFileWriter.Valid;
      var length := [|payload| % 0x100, |payload| / 0x100];
      var crc := typeCrc[t];
      var number: Bytes := [];
      if t >= RECYCLABLE_FULL_TYPE {
        number := EncodeFixed32(format.logNumber % 0x1_0000_0000);
        crc := Crc.ExtendImpl(crc, number, 0);
      }
      crc := Crc.ExtendImpl(crc, payload, 0);
      PhysicalCrc(format, t, payload);
      var header := EncodeFixed32(Crc.Mask(crc)) + length + [t] + number;
      assert Physical(format, t, payload) == header + payload;
      ok := Send(header, payload);
      blockOffset := blockOffset + |header| + |payload|;
    }

    // Two appends and a flush, each if the one before succeeded.
    method Send(header: Bytes, payload: Bytes) returns (ok: bool)
      requires Valid() && header != []
      modifies dest.Memory()
      ensures Valid() && (dest.out.buf.mem == old(dest.out.buf.mem) || fresh(dest.out.buf.mem))
      ensures old(dest.calls) < dest.calls && dest.Recalls(old(dest.faults), old(dest.calls))
      ensures ok == dest.Sound(old(dest.calls), dest.calls)
      ensures Emitted(old(dest.contents), dest.contents, header + payload, ok)
      ensures dest.Stored(old(dest.Now()), dest.Now(), ok, dest.out.Flushed(), dest.Behind())
      ensures dest.Buffered(old(dest.Now()), dest.Now(), |header| + |payload|,
                            |dest.contents| - |old(dest.contents)|, ok)
    {
      hide Destination.Valid, Destination.Follows, Emitted, FileWriter.WritableFileWriter.Flushed, Destination.Behind;
      ghost var before, b := dest.contents, dest.Now();
      ok := AppendBoth(header, payload);
      if ok {
        ghost var m := dest.Now();
        ok := dest.Flush();
        dest.FollowsTwice(b, m, dest.Now(), ok);
        EmittedAnyway(before, dest.contents, header + payload, ok);
      }
    }

    method AppendBoth(header: Bytes, payload: Bytes) returns (ok: bool)
      requires Valid()
      modifies dest.Memory()
      ensures Valid() && (dest.out.buf.mem == old(dest.out.buf.mem) || fresh(dest.out.buf.mem))
      ensures old(dest.calls) < dest.calls && dest.Recalls(old(dest.faults), old(dest.calls))
      ensures ok == dest.Sound(old(dest.calls), dest.calls)
      ensures Emitted(old(dest.contents), dest.contents, header + payload, ok)
      ensures dest.Follows(old(dest.Now()), dest.Now(), ok) && (old(dest.Now()).whole ==> dest.Behind())
      ensures dest.Fits(old(dest.Now()), |header| + |payload|) ==>
                && ok && dest.Now().calls == old(dest.Now()).calls && dest.Now().capacity == old(dest.Now()).capacity
                && dest.Now().size == old(dest.Now()).size + |header| + |payload|
      ensures ok ==> |dest.contents| == |old(dest.contents)| + |header| + |payload|
    {
      hide Destination.Valid, Destination.Follows, Emitted, Destination.Behind;
      ghost var before, b := dest.contents, dest.Now();
      ok := dest.Append(header);
      AppendEmits(before, header, dest.Through(old(dest.calls), |header|), ok);
      if ok {
        ghost var middle, m, call := dest.contents, dest.Now(), dest.calls;
        ok := dest.Append(payload);
        AppendEmits(middle, payload, dest.Through(call, |payload|), ok);
        EmittedTwice(before, middle, dest.contents, header, payload, ok);
        dest.FollowsTwice(b, m, dest.Now(), ok);
      } else {
        EmittedPiece(before, before, dest.contents, [], header, payload, ok);
        assert [] + header + payload == header + payload;
      }
    }

    // Where the first header of a record goes when the block offset is `offset`.
    static function FirstHeader(f: Format, offset: nat): (q: nat)
      requires offset <= BLOCK_SIZE
      ensures HeaderFits(f, q) && q < BLOCK_SIZE
      ensures q % BLOCK_SIZE == (offset + TrailerSize(f, offset)) % BLOCK_SIZE
    {
      if BLOCK_SIZE - offset < f.HeaderSize() then 0 else offset
    }

    static lemma AlignedFragments(f: Format, offset: nat, record: Bytes)
      requires offset <= BLOCK_SIZE
      ensures RecordBytes(f, offset, record)
           == ZeroBytes(TrailerSize(f, offset)) + Fragments(f, FirstHeader(f, offset), record, true)
    {
      hide Fragments;
      FragmentsModBlock(f, FirstHeader(f, offset), offset + TrailerSize(f, offset), record, true);
    }

    // The start of an iteration of the fragmentation loop: fill the trailer of a block that has no
    // room for a header. The result of that append is not looked at.
    method SwitchBlock()
      requires Valid()
      modifies this`blockOffset, dest.Memory()
      ensures Valid() && (dest.out.buf.mem == old(dest.out.buf.mem) || fresh(dest.out.buf.mem))
      ensures blockOffset == FirstHeader(format, old(blockOffset))
      ensures var k := TrailerSize(format, old(blockOffset));
              && dest.calls == old(dest.calls) + (if k > 0 then 1 else 0)
              && dest.Recalls(old(dest.faults), old(dest.calls))
              && dest.contents == old(dest.contents)
                + ZeroBytes(Padding(format, dest, old(blockOffset), old(dest.calls)))
      ensures old(blockOffset) == BLOCK_SIZE ==>
                blockOffset == 0 && dest.contents == old(dest.contents) && dest.calls == old(dest.calls)
                && dest.faults == old(dest.faults) && dest.Now() == old(dest.Now())
      ensures dest.Switched(old(dest.Now()), dest.Now(), TrailerSize(format, old(blockOffset)),
                            Padding(format, dest, old(blockOffset), old(dest.calls)))
    {
      hide FileWriter.WritableFileWriter.Valid;
      var leftover := BLOCK_SIZE - blockOffset;
      if leftover < format.HeaderSize() {
        if leftover > 0 {
          var zeros := ZeroBytes(leftover);
          var _ := dest.Append(zeros);
          assert zeros[..dest.Through(old(dest.calls), leftover)] == ZeroBytes(dest.Through(old(dest.calls), leftover));
        }
        blockOffset := 0;
      }
    }

    // How many trailer bytes reach the file when a record is added.
    static ghost function Padding(f: Format, dest: Destination, offset: nat, call: nat): (r: nat)
      reads dest
    {
      var k := TrailerSize(f, offset);
      if k > 0 then dest.Through(call, k) else 0
    }

    static ghost predicate PaddedFully(f: Format, dest: Destination, offset: nat, call: nat)
      reads dest
    {
      Padding(f, dest, offset, call) == TrailerSize(f, offset)
    }

    // One fragment of the rest of a record.
    method EmitFragment(left: Bytes, begin: bool) returns (ok: bool, n: nat)
      requires Valid() && blockOffset < BLOCK_SIZE && HeaderFits(format, blockOffset)
      modifies this`blockOffset, dest.Memory()
      ensures Valid() && (dest.out.buf.mem == old(dest.out.buf.mem) || fresh(dest.out.buf.mem))
      ensures n <= |left| && old(dest.calls) < dest.calls && dest.Recalls(old(dest.faults), old(dest.calls))
      ensures ok == dest.Sound(old(dest.calls), dest.calls)
      ensures blockOffset == old(blockOffset) + format.HeaderSize() + n
      ensures n < |left| ==> blockOffset == BLOCK_SIZE
      ensures |left[n..]| == |left| ==> left == [] || old(blockOffset) != 0
      ensures n == Min(|left|, Available(format, old(blockOffset)))
      ensures Emitted(old(dest.contents), dest.contents, PieceSent(format, old(blockOffset), left, begin, n), ok)
      ensures dest.Stored(old(dest.Now()), dest.Now(), ok, dest.out.Flushed(), dest.Behind())
      ensures dest.Buffered(old(dest.Now()), dest.Now(), format.HeaderSize() + n,
                            |dest.contents| - |old(dest.contents)|, ok)
    {
      hide Physical, Emitted, Destination.Stored, Destination.Buffered, Destination.Valid;
      var avail := BLOCK_SIZE - blockOffset - format.HeaderSize();
      n := if |left| < avail then |left| else avail;
      var t := FragmentType(format.recycle, begin, |left| == n);
      ok := EmitPhysicalRecord(t, left[..n]);
    }

    // The first physical record of the fragments of `left`; the rest starts on the next block.
    static ghost function PieceSent(f: Format, q: nat, left: Bytes, begin: bool, n: nat): (r: Bytes)
      requires q < BLOCK_SIZE && HeaderFits(f, q) && n == Min(|left|, Available(f, q))
      ensures |r| == f.HeaderSize() + n
      ensures Fragments(f, q, left, begin) == r + if n < |left| then Fragments(f, 0, left[n..], false) else []
    {
      hide Physical;
      if n < |left| then
        FragmentsModBlock(f, 0, BlockEnd(q), left[n..], false);
        Physical(f, FragmentType(f.recycle, begin, n == |left|), left[..n])
      else
        Physical(f, FragmentType(f.recycle, begin, n == |left|), left[..n])
    }

    // One iteration of the fragmentation loop on a full block, when `sent` has been written after `base`.
    method EmitNext(left: Bytes, ghost base: Bytes, ghost sent: Bytes) returns (ok: bool, n: nat, ghost more: Bytes)
      requires Valid() && blockOffset == BLOCK_SIZE && left != []
      requires Emitted(base, dest.contents, sent, true) && |sent| % BLOCK_SIZE == 0
      modifies this`blockOffset, dest.Memory()
      ensures Valid() && (dest.out.buf.mem == old(dest.out.buf.mem) || fresh(dest.out.buf.mem))
      ensures old(dest.calls) < dest.calls && dest.Recalls(old(dest.faults), old(dest.calls))
      ensures ok == dest.Sound(old(dest.calls), dest.calls)
      ensures dest.Stored(old(dest.Now()), dest.Now(), ok, dest.out.Flushed(), dest.Behind())
      ensures 0 < n <= |left| && (n < |left| ==> blockOffset == BLOCK_SIZE)
      ensures Fragments(format, 0, left, false)
              == more + if n < |left| then Fragments(format, 0, left[n..], false) else []
      ensures Emitted(base, dest.contents, sent + more, ok)
      ensures blockOffset % BLOCK_SIZE == |sent + more| % BLOCK_SIZE
    {
      hide Fragments, PieceSent, Emitted, TrailerSize, Padding, FirstHeader, Destination.Switched, Destination.Buffered,
           Destination.Valid, FileWriter.WritableFileWriter.Flushed, Destination.Stored;
      ghost var before := dest.contents;
      SwitchBlock();
      ok, n := EmitFragment(left, false);
      more := PieceSent(format, 0, left, false, n);
      EmittedPiece(base, before, dest.contents, sent, more, [], ok);
      WholeBlocks(|sent|, |more|);
    }

    static lemma WholeBlocks(a: nat, b: nat)
      requires a % BLOCK_SIZE == 0
      ensures (a + b) % BLOCK_SIZE == b % BLOCK_SIZE
    {
    }

    // The iterations of the fragmentation loop after the first one; each starts on a full block.
    method EmitRest(record: Bytes) returns (ok: bool)
      requires Valid() && blockOffset == BLOCK_SIZE && record != []
      modifies this`blockOffset, dest.Memory()
      ensures Valid() && (dest.out.buf.mem == old(dest.out.buf.mem) || fresh(dest.out.buf.mem))
      ensures old(dest.calls) < dest.calls && dest.Recalls(old(dest.faults), old(dest.calls))
      ensures dest.Stored(old(dest.Now()), dest.Now(), ok, dest.out.Flushed(), dest.Behind())
      ensures ok == dest.Sound(old(dest.calls), dest.calls)
      ensures Emitted(old(dest.contents), dest.contents, Fragments(format, 0, record, false), ok)
      ensures ok ==> blockOffset % BLOCK_SIZE == |Fragments(format, 0, record, false)| % BLOCK_SIZE
    {
      hide Fragments, Emitted, Destination.Valid, FileWriter.WritableFileWriter.Flushed, Destination.Follows;
      var left := record;
      ok := true;
      EmittedNothing(dest.contents);
      ghost var image := Fragments(format, 0, record, false);
      ghost var sent: Bytes, rest := [], image;
      while ok && |left| > 0
        invariant Valid() && (dest.out.buf.mem == old(dest.out.buf.mem) || fresh(dest.out.buf.mem))
        invariant dest.Recalls(old(dest.faults), old(dest.calls))
        invariant left == record ==> ok && dest.Now() == old(dest.Now())
        invariant left == record || (old(dest.calls) < dest.calls
                    && dest.Stored(old(dest.Now()), dest.Now(), ok, dest.out.Flushed(), dest.Behind()))
        invariant ok == dest.Sound(old(dest.calls), dest.calls)
        invariant image == sent + rest
        invariant ok ==> Emitted(old(dest.contents), dest.contents, sent, true)
        invariant ok ==> blockOffset % BLOCK_SIZE == |sent| % BLOCK_SIZE
        invariant ok && left != [] ==> blockOffset == BLOCK_SIZE && rest == Fragments(format, 0, left, false)
        invariant ok && left == [] ==> rest == []
        invariant !ok ==> Emitted(old(dest.contents), dest.contents, image, false)
        decreases ok, |left|
      {
        ghost var m := dest.Now();
        var n;
        ghost var more;
        ok, n, more := EmitNext(left, old(dest.contents), sent);
        if left != record {
          dest.StoredTwice(old(dest.Now()), m, dest.Now(), ok, dest.out.Flushed(), dest.Behind());
        }
        rest := if n < |left| then Fragments(format, 0, left[n..], false) else [];
        sent := sent + more;
        assert image == sent + rest;
        EmittedPart(old(dest.contents), dest.contents, sent, rest, ok);
        left := left[n..];
      }
      assert rest == [] ==> sent + rest == sent;
    }

    // The fragments of a record, from a place where a header fits.
    method EmitAll(record: Bytes) returns (ok: bool)
      requires Valid() && blockOffset < BLOCK_SIZE && HeaderFits(format, blockOffset)
      modifies this`blockOffset, dest.Memory()
      ensures Valid() && (dest.out.buf.mem == old(dest.out.buf.mem) || fresh(dest.out.buf.mem))
      ensures old(dest.calls) < dest.calls && dest.Recalls(old(dest.faults), old(dest.calls))
      ensures ok == dest.Sound(old(dest.calls), dest.calls)
      ensures var image := Fragments(format, old(blockOffset), record, true);
              && Emitted(old(dest.contents), dest.contents, image, ok)
              && (ok ==> blockOffset % BLOCK_SIZE == (old(blockOffset) + |image|) % BLOCK_SIZE)
      ensures dest.Stored(old(dest.Now()), dest.Now(), ok, dest.out.Flushed(), dest.Behind())
      ensures |record| <= Available(format, old(blockOffset)) ==>
                && blockOffset == old(blockOffset) + format.HeaderSize() + |record|
                && dest.Buffered(old(dest.Now()), dest.Now(), format.HeaderSize() + |record|,
                                 |dest.contents| - |old(dest.contents)|, ok)
    {
      hide Fragments, PieceSent, Emitted, Destination.Valid, Destination.Buffered, Destination.Follows,
           FileWriter.WritableFileWriter.Flushed;
      ghost var base, b := dest.contents, dest.Now();
      ghost var q := blockOffset;
      var n;
      ok, n := EmitFragment(record, true);
      ghost var more, middle, m := PieceSent(format, q, record, true, n), dest.contents, dest.Now();
      if ok && n < |record| {
        ok := EmitRest(record[n..]);
        EmittedTwice(base, middle, dest.contents, more, Fragments(format, 0, record[n..], false), ok);
        dest.StoredTwice(b, m, dest.Now(), ok, dest.out.Flushed(), dest.Behind());
      } else {
        ghost var rest := if n < |record| then Fragments(format, 0, record[n..], false) else [];
        EmittedNothing(base);
        EmittedPiece(base, base, middle, [], more, rest, ok);
        assert [] + more + rest == more + rest;
      }
    }

    // The do-while loop of the source: one iteration, then the rest while anything is left.
    method EmitRecord(record: Bytes) returns (ok: bool)
      requires Valid()
      modifies this`blockOffset, dest.Memory()
      ensures Valid() && (dest.out.buf.mem == old(dest.out.buf.mem) || fresh(dest.out.buf.mem))
      ensures dest.Recalls(old(dest.faults), old(dest.calls))
      ensures dest.Recorded(old(dest.Now()), dest.Now(), TrailerSize(format, old(blockOffset)),
                            Padding(format, dest, old(blockOffset), old(dest.calls)), ok,
                            dest.out.Flushed(), dest.Behind())
      ensures |record| <= Available(format, FirstHeader(format, old(blockOffset))) ==>
                && blockOffset == FirstHeader(format, old(blockOffset)) + format.HeaderSize() + |record|
                && dest.Buffered(old(dest.Now()), dest.Now(),
                                 TrailerSize(format, old(blockOffset)) + (format.HeaderSize() + |record|),
                                 |dest.contents| - |old(dest.contents)|, ok)
      ensures var from := old(dest.calls) + if TrailerSize(format, old(blockOffset)) > 0 then 1 else 0;
              && from < dest.calls
              && ok == dest.Sound(from, dest.calls)
      ensures var base := old(dest.contents) + ZeroBytes(Padding(format, dest, old(blockOffset), old(dest.calls)));
              var q := FirstHeader(format, old(blockOffset));
              var image := Fragments(format, q, record, true);
              && Emitted(base, dest.contents, image, ok)
              && (ok ==> blockOffset % BLOCK_SIZE == (q + |image|) % BLOCK_SIZE)
    {
      hide Fragments, TrailerSize, Emitted, Destination.Valid, Destination.Buffered, Destination.Stored,
           Destination.Switched, Destination.Recorded, FileWriter.WritableFileWriter.Flushed;
      ghost var b, offset, call := dest.Now(), blockOffset, dest.calls;
      SwitchBlock();
      ghost var m, q := dest.Now(), blockOffset;
      ghost var pad, base := Padding(format, dest, offset, call), dest.contents;
      ok := EmitAll(record);
      ghost var a := dest.Now();
      assert pad == Padding(format, dest, offset, call);
      dest.SwitchedThenStored(b, m, a, TrailerSize(format, offset), pad, ok, dest.out.Flushed(), dest.Behind());
      if |record| <= Available(format, q) {
        dest.SwitchedThenBuffered(b, m, a, TrailerSize(format, offset), format.HeaderSize() + |record|, pad,
          |dest.contents| - |base|, ok);
      }
    }

    lemma HealthyFile()
      requires Valid() && Healthy() && dest.out.useOsBuffer
      ensures dest.out.file.contents == LogBytes(format, 0, records)
    {
      hide LogBytes, FileWriter.WritableFileWriter.Valid;
    }

    // Where a record ends is known: once everything is flushed, its trailer has room in the buffer.
    lemma TrailerFits()
      requires Valid() && Healthy()
      ensures dest.Fits(dest.Now(), TrailerSize(format, blockOffset))
    {
      hide FileWriter.Padded, LogBytes, FileWriter.Tile, FileWriter.SyncPoint, Roundup, PowerOfTwo, Buffer.Contents;
      var out, k := dest.out, TrailerSize(format, blockOffset);
      if !out.useOsBuffer && k > 0 {
        PageRoom(out.buf.alignment, out.nextWriteOffset, out.buf.size, out.buf.capacity, k);
      }
    }

    // A buffer that starts at a page and ends in that page has room up to the end of the block.
    static lemma PageRoom(alignment: nat, next: nat, size: nat, capacity: nat, k: nat)
      requires PowerOfTwo(alignment) && Aligned(next, alignment) && size < alignment
      requires Aligned(capacity, alignment) && capacity >= FileWriter.INITIAL_CAPACITY
      requires k < RECYCLABLE_HEADER_SIZE && (next + size + k) % BLOCK_SIZE == 0
      ensures size + k <= capacity
    {
      hide PowerOfTwo;
      if alignment > BLOCK_SIZE {
        BlockIsPower();
        PowersDivide(BLOCK_SIZE, alignment);
        var p, q, r := alignment / BLOCK_SIZE, next / alignment, capacity / alignment;
        assert alignment == BLOCK_SIZE * p && next == alignment * q && capacity == alignment * r;
        Blocks(p, q, r, size, k);
      }
    }

    static lemma BlockIsPower()
      ensures PowerOfTwo(BLOCK_SIZE)
    {
      assert PowerOfTwo(2) && PowerOfTwo(4) && PowerOfTwo(8) && PowerOfTwo(16);
      assert PowerOfTwo(32) && PowerOfTwo(64) && PowerOfTwo(128) && PowerOfTwo(256);
      assert PowerOfTwo(512) && PowerOfTwo(1024) && PowerOfTwo(2048) && PowerOfTwo(4096);
    }

    static lemma Blocks(p: nat, q: nat, r: nat, size: nat, k: nat)
      requires size < BLOCK_SIZE * p && k < BLOCK_SIZE && (BLOCK_SIZE * p * q + size + k) % BLOCK_SIZE == 0
      requires BLOCK_SIZE * p * r > 0
      ensures size + k <= BLOCK_SIZE * p * r
    {
      var m := p * q;
      assert BLOCK_SIZE * p * q == BLOCK_SIZE * m;
      assert (size + k) % BLOCK_SIZE == 0;
      assert r >= 1;
      assert p * r >= p;
      assert BLOCK_SIZE * p * r == BLOCK_SIZE * (p * r);
    }

    method AddRecord(record: Bytes) returns (ok: bool)
      requires Valid()
      modifies this, dest.Memory()
      ensures Valid() && (dest.out.buf.mem == old(dest.out.buf.mem) || fresh(dest.out.buf.mem))
      ensures dest.Recorded(old(dest.Now()), dest.Now(), TrailerSize(format, old(blockOffset)),
                            Padding(format, dest, old(blockOffset), old(dest.calls)), ok,
                            dest.out.Flushed(), dest.Behind())
      ensures |record| <= Available(format, FirstHeader(format, old(blockOffset))) ==>
                && blockOffset == FirstHeader(format, old(blockOffset)) + format.HeaderSize() + |record|
                && dest.Buffered(old(dest.Now()), dest.Now(),
                                 TrailerSize(format, old(blockOffset)) + (format.HeaderSize() + |record|),
                                 |dest.contents| - |old(dest.contents)|, ok)
      // The status covers every call but the one that fills the trailer.
      ensures var from := old(dest.calls) + if TrailerSize(format, old(blockOffset)) > 0 then 1 else 0;
              && from < dest.calls
              && ok == dest.Sound(from, dest.calls)
      // What reaches the file is what arrived of the trailer, and then a prefix of the fragments,
      // all of them on success.
      ensures var base := old(dest.contents) + ZeroBytes(Padding(format, dest, old(blockOffset), old(dest.calls)));
              Emitted(base, dest.contents, Fragments(format, FirstHeader(format, old(blockOffset)), record, true), ok)
      // A clean log stays clean on success exactly when the whole trailer reached the file; when it
      // did, a failure leaves a prefix of the clean log.
      ensures records == old(records) + [record]
      ensures old(Clean()) && ok ==> (Clean() <==> PaddedFully(format, dest, old(blockOffset), old(dest.calls)))
      ensures old(Clean()) && PaddedFully(format, dest, old(blockOffset), old(dest.calls)) ==>
                dest.contents <= LogBytes(format, 0, records)
      // As long as every record was added, success means that the file itself holds the log of all of
      // them, and a failure leaves there what was there and the beginning of the rest.
      ensures old(Healthy()) && ok ==> Healthy()
      ensures old(Healthy()) && dest.out.useOsBuffer ==>
                old(dest.out.file.contents) <= dest.out.file.contents <= LogBytes(format, 0, records)
      ensures dest.out.file.calls >= old(dest.out.file.calls)
              && (dest.out.file.Sound(old(dest.out.file.calls)) ==> ok)
    {
      hide Fragments, LogBytes, TrailerSize, FirstHeader, Emitted, Padding, Destination.Valid,
           FileWriter.WritableFileWriter.Flushed, Destination.Buffered;
      ghost var before, offset, call := dest.contents, blockOffset, dest.calls;
      if Healthy() {
        TrailerFits();
      }
      ok := EmitRecord(record);
      ghost var pad := Padding(format, dest, offset, call);
      if old(Clean()) {
        AddedRecord(before, dest.contents, format, offset, records, record, pad, ok);
        AddedLength(before, dest.contents, format, offset, record, pad, blockOffset, ok);
      }
      records := records + [record];
    }

    // After a success the length of the file is that of the clean log exactly if the trailer is whole,
    // and then the block offset agrees with it.
    static lemma AddedLength(
      before: Bytes, after: Bytes, f: Format, offset: nat, record: Bytes, pad: nat, blockOffset: nat, ok: bool)
      requires offset <= BLOCK_SIZE && offset % BLOCK_SIZE == |before| % BLOCK_SIZE
      requires var image := Fragments(f, FirstHeader(f, offset), record, true);
               && Emitted(before + ZeroBytes(pad), after, image, ok)
               && (ok ==> blockOffset % BLOCK_SIZE == (FirstHeader(f, offset) + |image|) % BLOCK_SIZE)
      ensures var image := Fragments(f, FirstHeader(f, offset), record, true);
              && (ok ==> |after| == |before| + pad + |image|)
              && (ok && pad == TrailerSize(f, offset) ==> blockOffset % BLOCK_SIZE == |after| % BLOCK_SIZE)
    {
      hide Fragments, TrailerSize;
      var image := Fragments(f, FirstHeader(f, offset), record, true);
      SameInBlock(offset, |before|, TrailerSize(f, offset));
      SameInBlock(FirstHeader(f, offset), |before| + TrailerSize(f, offset), |image|);
    }

    static lemma SameInBlock(a: nat, b: nat, n: nat)
      requires a % BLOCK_SIZE == b % BLOCK_SIZE
      ensures (a + n) % BLOCK_SIZE == (b + n) % BLOCK_SIZE
    {
    }

    static lemma AddedRecord(
      before: Bytes, after: Bytes, f: Format, offset: nat, records: seq<Bytes>, record: Bytes, pad: nat, ok: bool)
      requires offset <= BLOCK_SIZE
      requires Emitted(before + ZeroBytes(pad), after, Fragments(f, FirstHeader(f, offset), record, true), ok)
      requires before == LogBytes(f, 0, records) && offset % BLOCK_SIZE == |before| % BLOCK_SIZE
      ensures |LogBytes(f, 0, records + [record])| == |before| + TrailerSize(f, offset)
              + |Fragments(f, FirstHeader(f, offset), record, true)|
      ensures pad == TrailerSize(f, offset) ==> after <= LogBytes(f, 0, records + [record])
      ensures pad == TrailerSize(f, offset) && ok ==> after == LogBytes(f, 0, records + [record])
    {
      hide Fragments, RecordBytes;
      AlignedFragments(f, offset, record);
      RecordBytesModBlock(f, offset, |before|, record);
      LogBytesAppend(f, 0, records, [record]);
      assert LogBytes(f, |before|, [record]) == RecordBytes(f, |before|, record);
      if pad == TrailerSize(f, offset) {
        EmittedTwice(before, before + ZeroBytes(pad), after, ZeroBytes(pad),
          Fragments(f, FirstHeader(f, offset), record, true), ok);
      }
    }
  }

  // The settings of a file writer that matter here.
  datatype Options = Options(
    alignment: nat, maxBufferSize: nat, directIo: bool, useOsBuffer: bool, bytesPerSync: nat)

  // A new log on a new file.
  method NewLog(f: Format, options: Options, faults: map<nat, nat>) returns (w: Writer)
    requires PowerOfTwo(options.alignment)
    ensures fresh(w) && fresh(w.dest.Memory()) && w.Valid() && w.Healthy() && w.records == [] && w.blockOffset == 0
    ensures w.format == f && w.dest.out.useOsBuffer == options.useOsBuffer
    ensures w.dest.out.bytesPerSync == options.bytesPerSync
    ensures w.dest.out.file.faults == faults && w.dest.contents == []
    ensures options.alignment > 0
            && w.dest.Now() == Disk([], 0, 0, Roundup(FileWriter.INITIAL_CAPACITY, options.alignment), true, true)
  {
    hide FileWriter.WritableFileWriter.Valid, FileWriter.WritableFileWriter.Flushed, PowerOfTwo, Roundup;
    var file := new FileWriter.WritableFile(options.alignment, faults);
    var address: nat := *;
    var out := new FileWriter.WritableFileWriter(
      file, options.maxBufferSize, options.directIo, options.useOsBuffer, options.bytesPerSync, address);
    var dest := new Destination(out);
    w := new Writer(dest, f.logNumber, f.recycle);
  }

  // ---------- an instance ----------

  lemma OneFragment(f: Format, p: nat, record: Bytes)
    requires |record| <= Available(f, p + TrailerSize(f, p))
    ensures |RecordBytes(f, p, record)| == TrailerSize(f, p) + f.HeaderSize() + |record|
  {
    hide Physical;
  }

  // Records that leave three bytes of their block.
  predicate LeavesThree(record: Bytes) {
    |record| == BLOCK_SIZE - 10
  }

  lemma FourRecords(r: Bytes)
    requires LeavesThree(r)
    ensures |LogBytes(Format(false, 0), 0, [r, r, r, r])| == 4 * BLOCK_SIZE - 3
  {
    hide RecordBytes;
    var f, b := Format(false, 0), BLOCK_SIZE;
    OneFragment(f, 0, r);
    OneFragment(f, b - 3, r);
    OneFragment(f, 2 * b - 3, r);
    OneFragment(f, 3 * b - 3, r);
    assert [r, r, r, r][1..] == [r, r, r] && [r, r, r][1..] == [r, r] && [r, r][1..] == [r];
    assert LogBytes(f, 3 * b - 3, [r]) == RecordBytes(f, 3 * b - 3, r) + [];
    assert LogBytes(f, 2 * b - 3, [r, r]) == RecordBytes(f, 2 * b - 3, r) + LogBytes(f, 3 * b - 3, [r]);
    assert LogBytes(f, b - 3, [r, r, r]) == RecordBytes(f, b - 3, r) + LogBytes(f, 2 * b - 3, [r, r]);
  }

  // One more of them, when there is room for it in the buffer.
  method AddOne(w: Writer, record: Bytes) returns (ok: bool)
    requires w.Valid() && LeavesThree(record) && w.format == Format(false, 0)
    requires w.blockOffset == 0 || w.blockOffset == BLOCK_SIZE - 3
    requires w.dest.out.useOsBuffer && w.dest.out.bytesPerSync == 0
    requires w.dest.Now().size + BLOCK_SIZE <= w.dest.Now().capacity && w.dest.Now().exact
    requires FileWriter.AllOrNothing(w.dest.out.file.faults)
    modifies w, w.dest.Memory()
    ensures w.Valid() && (w.dest.out.buf.mem == old(w.dest.out.buf.mem) || fresh(w.dest.out.buf.mem))
    ensures w.blockOffset == BLOCK_SIZE - 3 && w.dest.Now().exact
    ensures var n := if old(w.blockOffset) == 0 then BLOCK_SIZE - 3 else BLOCK_SIZE;
            && |w.dest.contents| == |old(w.dest.contents)| + n
            && w.dest.Flushes(old(w.dest.Now()), n, w.dest.Now(), ok)
  {
    hide LogBytes, Fragments, Writer.Valid, Writer.Clean, Writer.Healthy, Emitted, Destination.Behind,
         Destination.Flushes, FileWriter.WritableFileWriter.Flushed;
    ok := w.AddRecord(record);
  }

  // The same when the buffer is full and cannot be flushed for the trailer, but for what follows it.
  method AddBeyond(w: Writer, record: Bytes) returns (ok: bool)
    requires w.Valid() && LeavesThree(record) && w.format == Format(false, 0) && w.blockOffset == BLOCK_SIZE - 3
    requires w.dest.Stuck(w.dest.Now(), 3) && w.dest.out.file.Sound(w.dest.Now().calls + 1) && w.dest.Now().exact
    requires FileWriter.AllOrNothing(w.dest.out.file.faults)
    modifies w, w.dest.Memory()
    ensures ok && w.dest.out.file.contents == w.dest.contents
    ensures |w.dest.contents| == |old(w.dest.contents)| + BLOCK_SIZE - 3
  {
    hide LogBytes, Fragments, Writer.Clean, Writer.Healthy, Destination.Behind, Destination.Flushes;
    OneFragment(w.format, 0, record);
    assert RecordBytes(w.format, 0, record) == ZeroBytes(0) + Fragments(w.format, 0, record, true);
    ok := w.AddRecord(record);
  }

  const THREE_FAULTS: map<nat, nat> := map[2 := 0, 3 := 0, 4 := 0]

  lemma ThreeFaults()
    ensures forall call :: call in THREE_FAULTS <==> 2 <= call < 5
    ensures FileWriter.AllOrNothing(THREE_FAULTS)
  {
  }

  // A record is added; two more cannot be flushed and fill the buffer.
  method FillBuffer(w: Writer, record: Bytes) returns (a: bool, b: bool, c: bool)
    requires w.Valid() && LeavesThree(record) && w.format == Format(false, 0) && w.blockOffset == 0
    requires w.dest.out.useOsBuffer && w.dest.out.bytesPerSync == 0 && w.dest.out.file.faults == THREE_FAULTS
    requires w.dest.contents == [] && w.dest.Now() == Disk([], 0, 0, FileWriter.INITIAL_CAPACITY, true, true)
    modifies w, w.dest.Memory()
    ensures w.Valid() && (w.dest.out.buf.mem == old(w.dest.out.buf.mem) || fresh(w.dest.out.buf.mem))
    ensures w.blockOffset == BLOCK_SIZE - 3 && w.dest.Now().exact && |w.dest.contents| == 3 * BLOCK_SIZE - 3
    ensures a && !b && !c && w.dest.Now().calls == 4 && w.dest.Now().size == w.dest.Now().capacity > 0
  {
    hide Writer.Valid, THREE_FAULTS, FileWriter.AllOrNothing;
    ThreeFaults();
    a := AddOne(w, record);
    b := AddOne(w, record);
    c := AddOne(w, record);
  }

  // Two records cannot be flushed and fill the buffer. The trailer before the next one then needs a
  // flush, which fails as well, and is lost; the record after it is reported as added.
  method HoleReported() returns (oks: seq<bool>, contents: Bytes, record: Bytes)
    ensures oks == [true, false, false, true]
    ensures contents != LogBytes(Format(false, 0), 0, [record, record, record, record])
  {
    hide LogBytes, Writer.Valid, THREE_FAULTS, FileWriter.AllOrNothing, Writer.Healthy, Roundup;
    ThreeFaults();
    FileWriter.WholeBytes();
    var w := NewLog(Format(false, 0), Options(1, 0, false, true, 0), THREE_FAULTS);
    record := seq(BLOCK_SIZE - 10, _ => 7);
    var a, b, c := FillBuffer(w, record);
    var d := AddBeyond(w, record);
    FourRecords(record);
    oks, contents := [a, b, c, d], w.dest.out.file.contents;
  }
}
