/**
 The file writer (rutil/file_reader_writer.cc) as the log writer uses it (rutil/log_writer.cc:21-31,
 58-59, 125-131), with the history of its calls: which of them failed, and how many bytes a failed
 append took all the same.
 */
module LogDestination {
  import opened Coding
  import opened Masks
  import opened AlignedBuffer
  import opened FileWriter

  // The file below and the calls it has served, the bytes in the buffer and the room for them; whether
  // file and buffer hold all bytes taken, each once, and whether the file size counts them.
  datatype Disk = Disk(stored: Bytes, calls: nat, size: nat, capacity: nat, exact: bool, whole: bool)

  class Destination {
    const out: WritableFileWriter
    // All bytes taken.
    ghost var contents: Bytes
    ghost var calls: nat
    ghost var faults: map<nat, nat>

    ghost function Memory(): set<object>
      reads out.buf
    {
      {this, out, out.file, out.buf, out.buf.mem}
    }

    ghost predicate Valid()
      reads Memory()
    {
      out.Valid() && out.open && contents == out.logical && forall call :: call in faults ==> call < calls
    }

    ghost function Now(): Disk
      reads out, out.file, out.buf
    {
      Disk(out.file.contents, out.file.calls, out.buf.size, out.buf.capacity, out.stream == out.logical, out.Whole())
    }

    constructor (out: WritableFileWriter)
      requires out.Valid() && out.open
      ensures Valid() && this.out == out && contents == out.logical && calls == 0 && faults == map[]
    {
      this.out, contents, calls, faults := out, out.logical, 0, map[];
    }

    ghost function Through(call: nat, n: nat): (r: nat)
      reads this
      ensures r <= n
    {
      if call in faults then Min(faults[call], n) else n
    }

    // No call failed among these.
    ghost predicate Sound(from: nat, to: nat)
      reads this
    {
      forall call :: from <= call < to ==> call !in faults
    }

    // What was known of the first calls is still known.
    ghost predicate Recalls(faults: map<nat, nat>, calls: nat)
      reads this
    {
      && calls <= this.calls
      && forall call :: call < calls ==>
           (call in this.faults <==> call in faults) && (call in faults ==> this.faults[call] == faults[call])
    }

    // Successful calls keep the file whole, writes that fail without a byte keep it exact, and
    // nothing fails that the file below does not fail.
    ghost predicate Follows(b: Disk, a: Disk, ok: bool) {
      && (ok && b.whole ==> a.whole) && (b.exact && AllOrNothing(out.file.faults) ==> a.exact)
      && b.calls <= a.calls && (out.file.Sound(b.calls) ==> ok)
      && (out.useOsBuffer ==> b.stored <= a.stored)
    }

    // So many bytes stay in the buffer.
    ghost predicate Fits(b: Disk, n: nat) {
      b.size + n <= b.capacity
    }

    // A flush of the buffer with n more bytes.
    ghost predicate Flushes(b: Disk, n: nat, a: Disk, ok: bool) {
      if b.calls in out.file.faults then
        !ok && a.calls == b.calls + 1 && a.size == b.size + n && a.capacity == b.capacity
      else
        out.bytesPerSync == 0 ==>
          && ok == (b.calls + 1 !in out.file.faults)
          && a.calls == b.calls + 2 && a.size == 0 && a.capacity == b.capacity
    }

    // The next write of the buffer fails, and so does an append that needs it.
    ghost predicate Stuck(b: Disk, n: nat) {
      out.useOsBuffer && b.size + n > b.capacity && b.size > 0 && b.calls in out.file.faults
    }

    // What has become of a file in state b: it is whole and flushed if all calls succeeded, and at
    // least no more than what was taken has arrived.
    ghost predicate Stored(b: Disk, a: Disk, ok: bool, flushed: bool, behind: bool) {
      Follows(b, a, ok) && (b.whole ==> behind) && (ok ==> flushed)
    }

    lemma FollowsTwice(b: Disk, m: Disk, a: Disk, ok: bool)
      requires Follows(b, m, true) && Follows(m, a, ok)
      ensures Follows(b, a, ok) && (b.whole ==> m.whole)
    {
    }

    lemma StoredTwice(b: Disk, m: Disk, a: Disk, ok: bool, flushed: bool, behind: bool)
      requires Follows(b, m, true) && Stored(m, a, ok, flushed, behind)
      ensures Stored(b, a, ok, flushed, behind)
    {
    }

    // How the file has changed with the append of a trailer of k bytes, of which `pad` were taken. A
    // trailer that fits in the buffer is taken; one that needs a flush which fails is lost.
    ghost predicate Switched(b: Disk, a: Disk, k: nat, pad: nat) {
      && (b.exact && AllOrNothing(out.file.faults) ==> a.exact) && b.calls <= a.calls
      && (out.useOsBuffer ==> b.stored <= a.stored)
      && (Fits(b, k) ==>
            pad == k && (b.whole ==> a.whole) && a.calls == b.calls && a.size == b.size + k && a.capacity == b.capacity)
      && (Stuck(b, k) && k > 0 ==> pad == 0 && a.calls == b.calls + 1)
    }

    // The same for a whole record. With room for the trailer in the buffer, a file that was whole
    // stays so if the record was added.
    ghost predicate Recorded(b: Disk, a: Disk, k: nat, pad: nat, ok: bool, flushed: bool, behind: bool) {
      && (b.exact && AllOrNothing(out.file.faults) ==> a.exact) && b.calls <= a.calls
      && (out.useOsBuffer ==> b.stored <= a.stored)
      && (out.file.Sound(b.calls) ==> ok) && (ok ==> flushed)
      && (Fits(b, k) ==> pad == k && (b.whole ==> behind && (ok ==> a.whole)))
      && (Stuck(b, k) && k > 0 ==> pad == 0 && (out.file.Sound(b.calls + 1) ==> ok))
    }

    lemma SwitchedThenStored(
      b: Disk, m: Disk, a: Disk, k: nat, pad: nat, ok: bool, flushed: bool, behind: bool)
      requires Switched(b, m, k, pad) && Stored(m, a, ok, flushed, behind)
      ensures Recorded(b, a, k, pad, ok, flushed, behind)
    {
    }

    // Bytes that fit in the buffer are all taken, and written with it.
    ghost predicate Buffered(b: Disk, a: Disk, n: nat, taken: int, ok: bool) {
      out.useOsBuffer && Fits(b, n) ==> taken == n && Flushes(b, n, a, ok)
    }

    lemma SwitchedThenBuffered(b: Disk, m: Disk, a: Disk, k: nat, n: nat, pad: nat, taken: int, ok: bool)
      requires Switched(b, m, k, pad) && Buffered(m, a, n, taken, ok)
      ensures Buffered(b, a, k + n, pad + taken, ok)
    {
    }

    // A file of which no more than the bytes taken has arrived, in their order.
    ghost predicate Behind()
      reads out, out.file, this
    {
      out.useOsBuffer ==> out.file.contents <= contents
    }

    method Append(data: Bytes) returns (ok: bool)
      requires Valid()
      modifies Memory()
      ensures Valid() && (out.buf.mem == old(out.buf.mem) || fresh(out.buf.mem))
      ensures calls == old(calls) + 1 && ok == (old(calls) !in faults) && Recalls(old(faults), old(calls))
      ensures contents == old(contents) + data[..Through(old(calls), |data|)]
      ensures Follows(old(Now()), Now(), ok) && (old(Now()).whole ==> Behind())
      ensures Fits(old(Now()), |data|) ==>
                && ok && Now().calls == old(Now()).calls && Now().size == old(Now()).size + |data|
                && Now().capacity == old(Now()).capacity
      ensures Stuck(old(Now()), |data|) ==>
                !ok && Through(old(calls), |data|) == 0 && Now().calls == old(Now()).calls + 1
    {
      hide WritableFileWriter.Valid, WritableFileWriter.Torn, WritableFileWriter.Doubled, Buffer.Contents, Filled;
      ghost var taken, flushed, flushes;
      StoredIs();
      ok, taken, flushed, flushes := out.Append(data);
      StoredIs();
      contents, calls, faults := contents + data[..taken], calls + 1, if ok then faults else faults[calls := taken];
    }

    method Flush() returns (ok: bool)
      requires Valid()
      modifies Memory()
      ensures Valid() && out.buf.mem == old(out.buf.mem)
      ensures calls == old(calls) + 1 && ok == (old(calls) !in faults) && Recalls(old(faults), old(calls))
      ensures contents == old(contents)
      ensures Follows(old(Now()), Now(), ok) && (old(Now()).whole ==> Behind())
      ensures ok ==> out.Flushed()
      ensures out.useOsBuffer && old(Now()).size > 0 ==> Flushes(old(Now()), 0, Now(), ok)
    {
      hide WritableFileWriter.Valid, WritableFileWriter.Torn, WritableFileWriter.Doubled, Buffer.Contents;
      StoredIs();
      ok := out.Flush();
      StoredIs();
      calls, faults := calls + 1, if ok then faults else faults[calls := 0];
    }

    lemma WholeIsBehind()
      requires Valid() && out.Whole()
      ensures Behind()
    {
      hide WritableFileWriter.Valid;
      StoredIs();
    }

    // With the operating system's buffering, file and buffer make the stream.
    lemma StoredIs()
      requires out.Valid()
      ensures out.buf.Valid() && |out.buf.Contents()| == out.buf.size
      ensures out.useOsBuffer ==> out.file.contents <= out.stream && out.Torn() <= out.stream
    {
      hide Buffer.Contents, PowerOfTwo, Aligned, Tile, SyncPoint, Paged, Roundup;
      if out.useOsBuffer {
        assert out.Torn() <= out.file.contents + out.buf.Contents();
      }
    }
  }
}
