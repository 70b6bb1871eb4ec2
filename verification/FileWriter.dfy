/**
 WritableFileWriter (rutil/file_reader_writer.cc:36-311, include/rocksutil/file_reader_writer.h:73-143)
 over a file whose calls may fail: both write paths equal plain appending.
 */
module FileWriter {
  import opened Coding
  import opened Masks
  import opened AlignedBuffer

  // ---------- the file ----------

  // `data` written over the bytes from `offset` on.
  function Overwrite(contents: Bytes, offset: nat, data: Bytes): Bytes
    requires offset <= |contents|
  {
    contents[..offset] + data + if offset + |data| < |contents| then contents[offset + |data|..] else []
  }

  function Truncated(contents: Bytes, size: nat): Bytes {
    if size <= |contents| then contents[..size] else contents + ZeroBytes(size - |contents|)
  }

  // The n-th call fails iff n is a key of `faults`, which then says how many bytes of a write
  // still reached the file.
  class WritableFile {
    const alignment: nat
    const faults: map<nat, nat>
    var contents: Bytes
    var calls: nat
    // The ranges that were asked to be synced.
    ghost var ranges: seq<(nat, nat)>
    // What the file held at the last successful flush, and at the last successful sync.
    ghost var handed: Bytes
    ghost var durable: Bytes
    // The sync calls so far, by whether they were those of Fsync.
    ghost var syncs: seq<bool>
    ghost var closed: bool

    constructor (alignment: nat, faults: map<nat, nat>)
      ensures this.alignment == alignment && this.faults == faults && contents == [] && calls == 0 && ranges == []
      ensures handed == durable == [] && syncs == [] && !closed
    {
      this.alignment, this.faults := alignment, faults;
      contents, calls, ranges := [], 0, [];
      handed, durable, syncs, closed := [], [], [], false;
    }

    function Through(call: nat, n: nat): (r: nat)
      ensures r <= n && (call !in faults ==> r == n)
    {
      if call in faults && faults[call] < n then faults[call] else n
    }

    // No call fails from this one on.
    predicate Sound(from: nat) {
      forall call :: call in faults ==> call < from
    }

    method Append(data: Bytes) returns (ok: bool)
      modifies this`contents, this`calls
      ensures calls == old(calls) + 1 && ok == (old(calls) !in faults)
      ensures contents == old(contents) + data[..Through(old(calls), |data|)]
    {
      contents := contents + data[..Through(calls, |data|)];
      ok := calls !in faults;
      calls := calls + 1;
    }

    // Whole pages from an aligned address to an aligned offset, never moving the end of the file
    // back.
    method PositionedAppend(data: Bytes, address: nat, offset: nat) returns (ok: bool)
      requires Aligned(offset, alignment) && Aligned(|data|, alignment) && Aligned(address, alignment)
      requires offset <= |contents| <= offset + |data|
      modifies this`contents, this`calls
      ensures calls == old(calls) + 1 && ok == (old(calls) !in faults)
      ensures contents == Overwrite(old(contents), offset, data[..Through(old(calls), |data|)])
    {
      contents := Overwrite(contents, offset, data[..Through(calls, |data|)]);
      ok := calls !in faults;
      calls := calls + 1;
    }

    method Truncate(size: nat) returns (ok: bool)
      modifies this`contents, this`calls
      ensures calls == old(calls) + 1 && ok == (old(calls) !in faults)
      ensures contents == if ok then Truncated(old(contents), size) else old(contents)
    {
      ok := calls !in faults;
      if ok {
        contents := Truncated(contents, size);
      }
      calls := calls + 1;
    }

    // None of these calls failed.
    predicate Fine(from: nat, to: nat) {
      forall call :: from <= call < to ==> call !in faults
    }

    // Hands the contents to the operating system.
    method Flush() returns (ok: bool)
      modifies this`calls, this`handed
      ensures calls == old(calls) + 1 && ok == (old(calls) !in faults)
      ensures handed == if ok then contents else old(handed)
    {
      ok := calls !in faults;
      handed := if ok then contents else handed;
      calls := calls + 1;
    }

    // Sync or Fsync: makes the contents durable.
    method Sync(useFsync: bool) returns (ok: bool)
      modifies this`calls, this`durable, this`syncs
      ensures calls == old(calls) + 1 && ok == (old(calls) !in faults) && syncs == old(syncs) + [useFsync]
      ensures durable == if ok then contents else old(durable)
    {
      ok := calls !in faults;
      durable, syncs := if ok then contents else durable, syncs + [useFsync];
      calls := calls + 1;
    }

    method Close() returns (ok: bool)
      modifies this`calls, this`closed
      ensures calls == old(calls) + 1 && ok == (old(calls) !in faults) && closed
    {
      ok := calls !in faults;
      closed := true;
      calls := calls + 1;
    }

    method RangeSync(offset: nat, bytes: nat) returns (ok: bool)
      modifies this`calls, this`ranges
      ensures calls == old(calls) + 1 && ok == (old(calls) !in faults)
      ensures ranges == old(ranges) + [(offset, bytes)]
    {
      ranges := ranges + [(offset, bytes)];
      ok := calls !in faults;
      calls := calls + 1;
    }
  }

  // ---------- syncing behind the end ----------

  const NOT_SYNCED: nat := 1024 * 1024
  const SYNC_ALIGN: nat := 4 * 1024

  function SyncPoint(fileSize: nat): nat {
    if fileSize > NOT_SYNCED then (fileSize - NOT_SYNCED) - (fileSize - NOT_SYNCED) % SYNC_ALIGN else 0
  }

  lemma SyncPointGrows(a: nat, b: nat)
    requires a <= b
    ensures SyncPoint(a) <= SyncPoint(b) <= b && SyncPoint(a) % SYNC_ALIGN == 0
    ensures SyncPoint(a) > 0 ==> SyncPoint(a) + NOT_SYNCED <= a
  {
  }

  // Consecutive ranges from the start of the file up to `to`.
  ghost predicate Tile(ranges: seq<(nat, nat)>, to: nat) {
    if ranges == [] then to == 0
    else
      var last := ranges[|ranges| - 1];
      last.0 + last.1 == to && to % SYNC_ALIGN == 0 && Tile(ranges[..|ranges| - 1], last.0)
  }

  lemma TileMore(ranges: seq<(nat, nat)>, from: nat, to: nat)
    requires Tile(ranges, from) && from <= to && to % SYNC_ALIGN == 0
    ensures Tile(ranges + [(from, to - from)], to)
  {
    var more := ranges + [(from, to - from)];
    assert more[..|more| - 1] == ranges;
  }

  // ---------- the two write paths ----------

  // Unbuffered: whole pages up to `next` are in the file, the rest is in the buffer; the file may
  // reach beyond, but not past the page in which the data ends.
  ghost predicate Paged(logical: Bytes, file: Bytes, buffered: Bytes, next: nat, alignment: nat) {
    && alignment > 0 && Aligned(next, alignment) && next <= |logical|
    && logical[next..] == buffered
    && next <= |file| <= Roundup(|logical|, alignment)
    && file[..next] == logical[..next]
  }

  function Padded(data: Bytes, alignment: nat): (r: Bytes)
    requires alignment > 0
  {
    RoundupIsLeast(|data|, alignment);
    data + ZeroBytes(Roundup(|data|, alignment) - |data|)
  }

  lemma PadIs(was: Bytes, now: Bytes, alignment: nat)
    requires alignment > 0 && |now| == Roundup(|was|, alignment) && |was| <= |now| && now[..|was|] == was
    requires forall i :: |was| <= i < |now| ==> now[i] == 0
    ensures now == Padded(was, alignment)
  {
    assert now == now[..|was|] + now[|was|..];
    assert now[|was|..] == ZeroBytes(|now| - |was|);
  }

  // What the file must accept for a write of the padded buffer.
  lemma PagedReady(logical: Bytes, file: Bytes, buffered: Bytes, next: nat, alignment: nat)
    requires Paged(logical, file, buffered, next, alignment)
    ensures var n := |Padded(buffered, alignment)|;
            n == Roundup(|buffered|, alignment) && Aligned(n, alignment) && Aligned(next, alignment)
              && next <= |file| <= next + n
  {
    RoundupIsLeast(|buffered|, alignment);
    RoundupShift(next, |buffered|, alignment);
  }

  // A write of the padded buffer that succeeds leaves the padded data in the file.
  lemma PagedWritten(logical: Bytes, file: Bytes, buffered: Bytes, next: nat, alignment: nat, advance: nat)
    requires Paged(logical, file, buffered, next, alignment)
    requires advance <= |buffered| && Aligned(advance, alignment)
    ensures var file' := Overwrite(file, next, Padded(buffered, alignment));
            && file' == Padded(logical, alignment) && |file'| >= |file|
            && Paged(logical, file', buffered[advance..], next + advance, alignment)
  {
    RoundupShift(next, |buffered|, alignment);
    RoundupIsLeast(|buffered|, alignment);
    SumOfMultiples(next, advance, alignment);
    var file' := Overwrite(file, next, Padded(buffered, alignment));
    assert logical == logical[..next] + buffered;
    assert file' == Padded(logical, alignment);
  }

  // One that fails after some bytes loses nothing.
  lemma PagedTorn(logical: Bytes, file: Bytes, buffered: Bytes, next: nat, alignment: nat, k: nat)
    requires Paged(logical, file, buffered, next, alignment)
    requires k <= |Padded(buffered, alignment)|
    ensures Paged(logical, Overwrite(file, next, Padded(buffered, alignment)[..k]), buffered, next, alignment)
    ensures |Overwrite(file, next, Padded(buffered, alignment)[..k])| >= |file|
  {
    RoundupShift(next, |buffered|, alignment);
    RoundupIsLeast(|buffered|, alignment);
  }

  // Writing the last page again, or a part of it, changes nothing.
  lemma PagedAgain(logical: Bytes, file: Bytes, buffered: Bytes, next: nat, alignment: nat, k: nat)
    requires Paged(logical, file, buffered, next, alignment) && file == Padded(logical, alignment)
    requires k <= |Padded(buffered, alignment)|
    ensures Overwrite(file, next, Padded(buffered, alignment)[..k]) == file
  {
    hide Roundup, Padded;
    PagedWritten(logical, file, buffered, next, alignment, 0);
    PagedReady(logical, file, buffered, next, alignment);
    OverwriteSame(file, next, Padded(buffered, alignment), k);
  }

  lemma OverwriteSame(file: Bytes, next: nat, data: Bytes, k: nat)
    requires next <= |file| <= next + |data| && k <= |data| && Overwrite(file, next, data) == file
    ensures Overwrite(file, next, data[..k]) == file
  {
    assert file[next..] == data;
    var r := Overwrite(file, next, data[..k]);
    forall i | 0 <= i < |file|
      ensures |r| == |file| && r[i] == file[i]
    {
      if next <= i < next + k {
        assert r[i] == data[i - next];
        assert file[next..][i - next] == data[i - next];
      }
    }
  }

  lemma PagedMore(logical: Bytes, file: Bytes, buffered: Bytes, next: nat, alignment: nat, more: Bytes)
    requires Paged(logical, file, buffered, next, alignment)
    ensures Paged(logical + more, file, buffered + more, next, alignment)
  {
    RoundupIsLeast(|logical|, alignment);
    RoundupIsLeast(|logical + more|, alignment);
    assert (logical + more)[next..] == buffered + more;
    assert (logical + more)[..next] == logical[..next];
  }

  lemma FilledStep(room: nat, capacity: nat, limit: nat, alignment: nat, flushes: nat)
    requires alignment > 0
    ensures Filled(room, capacity, limit, alignment, 0) == room
    ensures CapacityAfter(capacity, limit, alignment, 0) == capacity
    ensures CapacityAfter(capacity, limit, alignment, flushes + 1)
            == MoreCapacity(CapacityAfter(capacity, limit, alignment, flushes), limit, alignment)
    ensures Filled(room, capacity, limit, alignment, flushes + 1)
            == Filled(room, capacity, limit, alignment, flushes)
              + CapacityAfter(capacity, limit, alignment, flushes + 1)
  {
  }

  const INITIAL_CAPACITY: nat := 65536

  // ---------- the size of the buffer ----------

  lemma {:induction false} CapacityPositive(capacity: nat, limit: nat, alignment: nat, flushes: nat)
    requires alignment > 0 && capacity > 0
    ensures CapacityAfter(capacity, limit, alignment, flushes) > 0
  {
    hide Roundup;
    if flushes > 0 {
      CapacityPositive(capacity, limit, alignment, flushes - 1);
      RoundupIsLeast(Min(CapacityAfter(capacity, limit, alignment, flushes - 1) * 2, limit), alignment);
    }
  }

  lemma FilledNothing(room: nat, capacity: nat, limit: nat, alignment: nat, flushes: nat)
    requires alignment > 0 && capacity > 0
    ensures Filled(room, capacity, limit, alignment, flushes) == 0 <==> room == 0 && flushes == 0
  {
    CapacityPositive(capacity, limit, alignment, flushes);
  }

  // An empty buffer is doubled, within the limit.
  function MoreCapacity(capacity: nat, limit: nat, alignment: nat): nat
    requires alignment > 0
  {
    if capacity < limit then Roundup(Min(capacity * 2, limit), alignment) else capacity
  }

  function CapacityAfter(capacity: nat, limit: nat, alignment: nat, flushes: nat): nat
    requires alignment > 0
  {
    if flushes == 0 then capacity
    else MoreCapacity(CapacityAfter(capacity, limit, alignment, flushes - 1), limit, alignment)
  }

  // How much goes through a buffer with some room that is flushed so many times.
  function Filled(room: nat, capacity: nat, limit: nat, alignment: nat, flushes: nat): (r: nat)
    requires alignment > 0
    ensures r >= room
  {
    if flushes == 0 then room
    else
      Filled(room, capacity, limit, alignment, flushes - 1) + CapacityAfter(capacity, limit, alignment, flushes)
  }

  class WritableFileWriter {
    const file: WritableFile
    const buf: Buffer
    const maxBufferSize: nat
    const directIo: bool
    const useOsBuffer: bool
    const bytesPerSync: nat
    var fileSize: nat
    var nextWriteOffset: nat
    var pendingSync: bool
    var lastSyncSize: nat
    var open: bool
    // All bytes taken from callers so far.
    ghost var logical: Bytes
    // The same, but with the part of the buffer twice that a torn write left in the file.
    ghost var stream: Bytes

    ghost predicate Valid()
      reads this, file, buf, buf.mem
    {
      Core() && Settled()
    }

    ghost predicate Core()
      reads this, file, buf, buf.mem
    {
      && buf.Valid() && buf.alignment == file.alignment && buf.capacity >= INITIAL_CAPACITY
      && fileSize <= |logical| <= |stream| && (|stream| == |logical| ==> stream == logical)
      && (if useOsBuffer then file.contents + buf.Contents() == stream
          else stream == logical && Paged(stream, file.contents, buf.Contents(), nextWriteOffset, buf.alignment))
      && lastSyncSize <= SyncPoint(fileSize) && Tile(file.ranges, lastSyncSize) && lastSyncSize <= |file.contents|
    }

    // With no sync pending the file holds everything and, unless it bypasses the operating system,
    // has been synced since.
    ghost predicate Settled()
      reads this, file, buf
    {
      pendingSync || (Flushed() && (directIo || file.durable == file.contents))
    }

    // How many bytes the file and the buffer make together.
    function Length(): nat
      reads this, file, buf
    {
      (if useOsBuffer then |file.contents| else nextWriteOffset) + buf.size
    }

    lemma LengthIsExact()
      requires Valid()
      ensures Length() == |stream|
    {
      hide PowerOfTwo, Aligned, Tile, SyncPoint, Roundup;
    }

    // The file holds everything, in unbuffered mode up to the end of its last page.
    ghost predicate Flushed()
      reads this, file, buf
    {
      if useOsBuffer then buf.size == 0 && file.contents == stream
      else buf.size < buf.alignment && file.contents == Padded(stream, buf.alignment)
    }

    // No failed request took bytes, and no write was torn.
    ghost predicate Whole()
      reads this
    {
      stream == logical && fileSize == |logical|
    }

    constructor (
      file: WritableFile, maxBufferSize: nat, directIo: bool, useOsBuffer: bool, bytesPerSync: nat, address: nat)
      requires PowerOfTwo(file.alignment) && file.contents == file.durable == [] && file.ranges == []
      ensures Valid() && open && logical == [] && stream == [] && fileSize == 0 && fresh(buf) && fresh(buf.mem)
      ensures this.file == file && this.useOsBuffer == useOsBuffer && this.maxBufferSize == maxBufferSize
              && this.directIo == directIo && !pendingSync && this.bytesPerSync == bytesPerSync && buf.size == 0
              && file.alignment > 0 && buf.capacity == Roundup(INITIAL_CAPACITY, file.alignment)
      ensures Whole() && Flushed()
    {
      this.file, this.maxBufferSize, this.directIo, this.useOsBuffer, this.bytesPerSync :=
        file, maxBufferSize, directIo, useOsBuffer, bytesPerSync;
      fileSize, nextWriteOffset, pendingSync, lastSyncSize, open := 0, 0, false, 0, true;
      logical, stream := [], [];
      buf := new Buffer(file.alignment, INITIAL_CAPACITY, address);
      RoundupIsLeast(INITIAL_CAPACITY, file.alignment);
      RoundupIsLeast(0, file.alignment);
    }

    // In buffered mode: hands the bytes to the file, and empties the buffer.
    method WriteBuffered(data: Bytes) returns (ok: bool)
      requires buf.Valid()
      modifies file`contents, file`calls, buf
      ensures buf.Valid() && buf.capacity == old(buf.capacity) && buf.mem == old(buf.mem)
      ensures file.contents == old(file.contents) + data[..file.Through(old(file.calls), |data|)]
      ensures file.ranges == old(file.ranges)
      ensures ok ==> file.contents == old(file.contents) + data && buf.Contents() == []
      ensures file.calls == old(file.calls) + if data == [] then 0 else 1
      ensures ok == (data == [] || old(file.calls) !in file.faults)
      ensures !ok ==> buf.Contents() == old(buf.Contents())
    {
      ok := true;
      var src, left := 0, |data|;
      while left > 0
        invariant left == 0
                  || (left == |data| && src == 0 && file.calls == old(file.calls)
                    && file.contents == old(file.contents))
        invariant left == 0 ==> file.contents == old(file.contents) + data
        invariant left == 0 && |data| > 0 ==> old(file.calls) !in file.faults && file.calls == old(file.calls) + 1
        invariant data == [] ==> file.calls == old(file.calls)
        invariant file.ranges == old(file.ranges) && ok && buf.Valid() && buf.Contents() == old(buf.Contents())
        invariant buf.capacity == old(buf.capacity) && buf.mem == old(buf.mem)
      {
        var allowed := left;
        ok := file.Append(data[src..src + allowed]);
        if !ok {
          return;
        }
        left := left - allowed;
        src := src + allowed;
      }
      buf.Size(0);
    }

    // Writes the buffer out padded to whole pages; the bytes after the last whole page stay
    // buffered and will be written again.
    method WriteUnbuffered() returns (ok: bool)
      requires Valid() && !useOsBuffer && buf.size > 0
      modifies this`nextWriteOffset, file`contents, file`calls, buf, buf.mem
      ensures Valid() && buf.mem == old(buf.mem) && buf.capacity == old(buf.capacity)
      ensures file.ranges == old(file.ranges) && file.calls == old(file.calls) + 1
      ensures ok == (old(file.calls) !in file.faults)
      ensures ok ==> Flushed() && (Aligned(old(buf.size), buf.alignment) ==> buf.size == 0)
      ensures ok ==> nextWriteOffset == |stream| - buf.size
      ensures !ok ==> buf.Contents() == old(buf.Contents()) && nextWriteOffset == old(nextWriteOffset)
    {
      hide WritableFileWriter.Core, Buffer.Contents, PowerOfTwo, Aligned, Padded;
      ok := WriteTail();
    }

    method WriteTail() returns (ok: bool)
      requires Core() && !useOsBuffer && buf.size > 0
      modifies this`nextWriteOffset, file`contents, file`calls, buf, buf.mem
      ensures Core() && buf.mem == old(buf.mem) && buf.capacity == old(buf.capacity)
      ensures file.ranges == old(file.ranges) && file.calls == old(file.calls) + 1
      ensures ok == (old(file.calls) !in file.faults)
      ensures ok ==> Flushed() && (Aligned(old(buf.size), buf.alignment) ==> buf.size == 0)
      ensures ok ==> nextWriteOffset == |stream| - buf.size
      ensures !ok ==> buf.Contents() == old(buf.Contents()) && nextWriteOffset == old(nextWriteOffset)
                      && buf.size == old(buf.size)
      ensures old(Flushed()) ==> file.contents == old(file.contents)
    {
      hide Buffer.Contents, PowerOfTwo, LowBits, Aligned, Tile, SyncPoint, Paged, Padded, Overwrite, Roundup,
           TruncateToPageBoundary;
      ghost var was, before, next := buf.Contents(), file.contents, nextWriteOffset;
      PagedReady(stream, before, was, next, buf.alignment);
      TruncateIsBelow(buf.alignment, buf.size);
      var advance := TruncateToPageBoundary(buf.alignment, buf.size);
      var tail := buf.size - advance;
      ok := WritePages();
      if !ok {
        ghost var k := file.Through(old(file.calls), buf.size);
        PagedTorn(stream, before, was, next, buf.alignment, k);
        if old(Flushed()) {
          PagedAgain(stream, before, was, next, buf.alignment, k);
        }
        buf.Size(advance + tail);
        assert buf.Contents() == was;
      } else {
        PagedWritten(stream, before, was, next, buf.alignment, advance);
        PaddedPart(was, buf.Contents(), advance);
        buf.RefitTail(advance, tail);
        nextWriteOffset := nextWriteOffset + advance;
        PagedEnd(stream, file.contents, buf.Contents(), nextWriteOffset, buf.alignment);
      }
    }

    static lemma PaddedPart(was: Bytes, padded: Bytes, advance: nat)
      requires advance <= |was| <= |padded| && padded[..|was|] == was
      ensures padded[advance..|was|] == was[advance..]
    {
    }

    static lemma PagedEnd(logical: Bytes, file: Bytes, buffered: Bytes, next: nat, alignment: nat)
      requires Paged(logical, file, buffered, next, alignment)
      ensures next == |logical| - |buffered|
    {
    }

    // Pads the buffer, and writes it at the next offset.
    method WritePages() returns (ok: bool)
      requires buf.Valid() && buf.alignment == file.alignment && buf.size > 0
               && Aligned(nextWriteOffset, file.alignment)
      requires nextWriteOffset <= |file.contents| <= nextWriteOffset + Roundup(buf.size, buf.alignment)
      modifies file`contents, file`calls, buf, buf.mem
      ensures buf.Valid() && buf.mem == old(buf.mem) && buf.capacity == old(buf.capacity)
              && file.ranges == old(file.ranges) && file.calls == old(file.calls) + 1
      ensures old(buf.size) <= buf.size && buf.Contents()[..old(buf.size)] == old(buf.Contents())
      ensures buf.Contents() == Padded(old(buf.Contents()), buf.alignment)
      ensures ok == (old(file.calls) !in file.faults)
      ensures file.contents ==
              Overwrite(old(file.contents), nextWriteOffset, buf.Contents()[..file.Through(old(file.calls), buf.size)])
      ensures ok ==> file.contents == Overwrite(old(file.contents), nextWriteOffset, buf.Contents())
    {
      hide PowerOfTwo, LowBits, Aligned, Padded, Overwrite, Roundup;
      ghost var was := buf.Contents();
      RoundupIsLeast(buf.size, buf.alignment);
      buf.PadToAlignmentWith(0);
      PadIs(was, buf.Contents(), buf.alignment);
      var data := buf.mem[buf.start..buf.start + buf.size];
      ok := WriteOut(data, buf.address + buf.start);
    }

    method WriteOut(data: Bytes, address: nat) returns (ok: bool)
      requires Aligned(nextWriteOffset, file.alignment) && Aligned(|data|, file.alignment)
               && Aligned(address, file.alignment)
      requires nextWriteOffset <= |file.contents| <= nextWriteOffset + |data| && data != []
      modifies file`contents, file`calls
      ensures file.ranges == old(file.ranges) && file.calls == old(file.calls) + 1
      ensures ok == (old(file.calls) !in file.faults)
      ensures file.contents
              == Overwrite(old(file.contents), nextWriteOffset, data[..file.Through(old(file.calls), |data|)])
      ensures ok ==> file.contents == Overwrite(old(file.contents), nextWriteOffset, data)
    {
      hide Aligned, Overwrite;
      ok := true;
      assert data[..|data|] == data;
      var src, offset, left := 0, nextWriteOffset, |data|;
      while left > 0
        invariant if left == 0 then
                    && old(file.calls) !in file.faults && file.calls == old(file.calls) + 1
                    && file.contents == Overwrite(old(file.contents), nextWriteOffset, data)
                  else
                    && left == |data| && src == 0 && offset == nextWriteOffset
                    && file.calls == old(file.calls) && file.contents == old(file.contents)
        invariant ok && file.ranges == old(file.ranges)
      {
        var size := left;
        assert data[src..src + size] == data;
        ok := file.PositionedAppend(data[src..src + size], address + src, offset);
        if !ok {
          return;
        }
        left := left - size;
        src := src + size;
        offset := offset + size;
      }
    }

    // Unless I/O is direct or no such syncs are wanted, less than bytesPerSync bytes that could be
    // synced have not been asked for.
    ghost predicate SyncedBehind()
      reads this
    {
      directIo || bytesPerSync == 0 || SyncPoint(fileSize) < lastSyncSize + bytesPerSync
    }

    // After a flush: asks for the pages well behind the end of the data to be synced. A range is
    // never asked for again, even if the call fails.
    method SyncBehind() returns (ok: bool)
      requires Valid() && Flushed()
      modifies this`lastSyncSize, file`calls, file`ranges
      ensures Valid() && Flushed() && SyncedBehind()
      ensures file.ranges == old(file.ranges)
              || (lastSyncSize - old(lastSyncSize) >= bytesPerSync > 0
                && file.ranges == old(file.ranges) + [(old(lastSyncSize), lastSyncSize - old(lastSyncSize))])
      ensures file.calls >= old(file.calls) && ok == file.Fine(old(file.calls), file.calls)
      ensures bytesPerSync == 0 || directIo ==> file.calls == old(file.calls) && file.ranges == old(file.ranges)
    {
      hide Buffer.Contents, PowerOfTwo, Aligned, Tile, SyncPoint, Paged, Roundup;
      ok := true;
      SyncPointGrows(fileSize, fileSize);
      if !directIo && bytesPerSync > 0 {
        var point := SyncPoint(fileSize);
        if point > 0 && point - lastSyncSize >= bytesPerSync {
          TileMore(file.ranges, lastSyncSize, point);
          ok := file.RangeSync(lastSyncSize, point - lastSyncSize);
          lastSyncSize := point;
        }
      }
    }

    // The first half of Flush.
    method WriteBack() returns (ok: bool)
      requires Valid()
      modifies this`nextWriteOffset, this`stream, file`contents, file`calls, buf, buf.mem
      ensures Valid() && buf.mem == old(buf.mem) && buf.capacity == old(buf.capacity)
      ensures stream == (if old(Tears()) then old(Doubled()) else old(stream)) && (old(Tears()) ==> !ok)
      ensures ok ==> Flushed() && (useOsBuffer || Aligned(old(buf.size), buf.alignment) ==> buf.size == 0)
      ensures ok == !old(WriteFails()) && file.calls == old(file.calls) + if old(buf.size) == 0 then 0 else 1
      ensures !ok ==> buf.Contents() == old(buf.Contents()) && (useOsBuffer ==> file.contents == old(Torn()))
    {
      hide Buffer.Contents, PowerOfTwo, Aligned, Tile, SyncPoint, Paged, Roundup;
      ok := true;
      if buf.size > 0 {
        if useOsBuffer {
          var data := buf.Data();
          ghost var k := file.Through(file.calls, |data|);
          ok := WriteBuffered(data);
          if !ok {
            assert k == 0 ==> data[..k] == [];
            stream := file.contents + data;
          }
        } else {
          ok := WriteUnbuffered();
        }
      } else if useOsBuffer {
        assert file.contents == stream;
      } else {
        PagedWhole(stream, file.contents, buf.Contents(), nextWriteOffset, buf.alignment);
      }
    }

    // The next write of the buffer fails.
    ghost predicate WriteFails()
      reads file, buf
    {
      buf.size > 0 && file.calls in file.faults
    }

    // What is in the file after that, with the operating system's buffering.
    ghost function Torn(): Bytes
      requires buf.Valid()
      reads file, buf, buf.mem
    {
      file.contents + buf.Contents()[..file.Through(file.calls, buf.size)]
    }

    // The next write of the buffer fails after some of its bytes, which a retry will write again.
    ghost predicate Tears()
      reads file, buf
    {
      useOsBuffer && WriteFails() && file.faults[file.calls] > 0
    }

    // What file and buffer hold after that.
    ghost function Doubled(): Bytes
      requires buf.Valid()
      reads file, buf, buf.mem
    {
      Torn() + buf.Contents()
    }

    static lemma PagedWhole(logical: Bytes, file: Bytes, buffered: Bytes, next: nat, alignment: nat)
      requires Paged(logical, file, buffered, next, alignment) && buffered == []
      ensures file == Padded(logical, alignment)
    {
      hide Aligned;
      assert next == |logical|;
      RoundupUnique(next, alignment, next);
    }

    method Flush() returns (ok: bool)
      requires Valid()
      modifies this`nextWriteOffset, this`stream, this`lastSyncSize
      modifies file`contents, file`calls, file`ranges, file`handed, buf, buf.mem
      ensures Valid() && buf.mem == old(buf.mem) && buf.capacity == old(buf.capacity)
      ensures stream == (if old(Tears()) then old(Doubled()) else old(stream)) && (old(Tears()) ==> !ok)
      ensures ok ==> Flushed() && (useOsBuffer || Aligned(old(buf.size), buf.alignment) ==> buf.size == 0)
      ensures ok ==> file.handed == file.contents && SyncedBehind()
      ensures file.calls > old(file.calls) && ok == file.Fine(old(file.calls), file.calls)
      ensures useOsBuffer ==> old(file.contents) <= file.contents
      // A failed write keeps the buffer; after any other flush the file has it.
      ensures old(WriteFails()) ==>
                && !ok && file.calls == old(file.calls) + 1 && buf.Contents() == old(buf.Contents())
                && (useOsBuffer ==> file.contents == old(Torn()))
      ensures !old(WriteFails()) ==>
                && Flushed()
                && (bytesPerSync == 0 ==>
                      && file.calls == old(file.calls) + (if old(buf.size) == 0 then 1 else 2)
                      && ok == (file.calls - 1 !in file.faults))
    {
      hide Buffer.Contents, PowerOfTwo, Aligned, Tile, SyncPoint, Paged, Roundup;
      ok := WriteBack();
      if !ok {
        return;
      }
      ok := file.Flush();
      if !ok {
        return;
      }
      ok := SyncBehind();
    }

    // Doubles an empty buffer, within the limit.
    method Grow()
      requires Valid() && buf.size == 0
      modifies buf
      ensures Valid() && buf.size == 0 && (buf.mem == old(buf.mem) || fresh(buf.mem))
              && buf.capacity >= old(buf.capacity)
      ensures buf.alignment > 0 && buf.capacity == MoreCapacity(old(buf.capacity), maxBufferSize, buf.alignment)
    {
      hide PowerOfTwo, Aligned, Tile, SyncPoint, Paged, Roundup;
      ghost var was := buf.Contents();
      if buf.capacity < maxBufferSize {
        var desired := buf.capacity * 2;
        desired := if maxBufferSize < desired then maxBufferSize else desired;
        RoundupIsLeast(desired, buf.alignment);
        var address: nat := *;
        buf.AllocateNewBuffer(desired, address);
      }
      assert buf.Contents() == was;
    }

    // The loop that passes data through the buffer. It fails with the first flush that fails, and has
    // then taken what the buffer held before and after each of those that succeeded.
    method Fill(data: Bytes) returns (ok: bool, ghost taken: nat, ghost flushes: nat)
      requires Valid() && pendingSync && (useOsBuffer ==> |data| <= buf.capacity - buf.size)
      modifies this`nextWriteOffset, this`stream, this`lastSyncSize, this`logical
      modifies file`contents, file`calls, file`ranges, file`handed, buf, buf.mem
      ensures Valid() && (buf.mem == old(buf.mem) || fresh(buf.mem)) && buf.alignment > 0
      ensures taken <= |data| && (ok ==> taken == |data|) && (useOsBuffer ==> ok)
      ensures logical == old(logical) + data[..taken] && stream == old(stream) + data[..taken]
      ensures !ok ==>
                taken == Filled(old(buf.capacity - buf.size), old(buf.capacity), maxBufferSize, buf.alignment, flushes)
      ensures |data| <= old(buf.capacity - buf.size) ==> ok && Held(old(buf.Contents()), data)
      ensures |data| <= old(buf.capacity - buf.size) ==>
                file.calls == old(file.calls) && file.contents == old(file.contents)
                && buf.capacity == old(buf.capacity)
      ensures file.calls >= old(file.calls) && ok == file.Fine(old(file.calls), file.calls)
    {
      hide WritableFileWriter.Valid, Buffer.Contents, PowerOfTwo, Aligned, Roundup, MoreCapacity, Filled,
           CapacityAfter, WritableFileWriter.Flushed;
      ok, flushes := true, 0;
      BufferValid();
      FilledStep(buf.capacity - buf.size, buf.capacity, maxBufferSize, buf.alignment, 0);
      var src, left := 0, |data|;
      ghost var room, capacity := buf.capacity - buf.size, buf.capacity;
      assert data[..0] == [];
      while left > 0
        invariant Valid() && buf.Valid() && buf.capacity > 0 && ok && 0 <= src <= |data| == src + left
        invariant logical == old(logical) + data[..src] && stream == old(stream) + data[..src]
        invariant buf.mem == old(buf.mem) || fresh(buf.mem)
        invariant useOsBuffer ==> left <= buf.capacity - buf.size
        invariant buf.capacity == CapacityAfter(capacity, maxBufferSize, buf.alignment, flushes)
        invariant src + (buf.capacity - buf.size) == Filled(room, capacity, maxBufferSize, buf.alignment, flushes)
        invariant file.calls >= old(file.calls) && file.Fine(old(file.calls), file.calls)
        invariant src == 0 || left == 0 || |data| > room
        invariant |data| <= room ==>
                    && flushes == 0 && file.calls == old(file.calls) && file.contents == old(file.contents)
                    && Held(old(buf.Contents()), if left == 0 then data else [])
        decreases left, buf.size
      {
        var n;
        ok, n := Round(data[src..]);
        Onward(old(logical), data, src, n);
        Onward(old(stream), data, src, n);
        assert src == 0 ==> data[src..] == data;
        left := left - n;
        src := src + n;
        if !ok {
          break;
        }
        FilledStep(room, capacity, maxBufferSize, buf.alignment, flushes);
        flushes := if left > 0 then flushes + 1 else flushes;
      }
      taken := src;
      assert data[..|data|] == data;
    }

    // One round of the loop.
    method Round(data: Bytes) returns (ok: bool, n: nat)
      requires Valid() && pendingSync && data != [] && (useOsBuffer ==> |data| <= buf.capacity - buf.size)
      modifies this`nextWriteOffset, this`stream, this`lastSyncSize, this`logical
      modifies file`contents, file`calls, file`ranges, file`handed, buf, buf.mem
      ensures Valid() && buf.Valid() && buf.capacity > 0 && (buf.mem == old(buf.mem) || fresh(buf.mem))
      ensures n == Min(|data|, old(buf.capacity - buf.size))
      ensures logical == old(logical) + data[..n] && stream == old(stream) + data[..n]
      ensures file.calls >= old(file.calls) && ok == file.Fine(old(file.calls), file.calls)
      ensures n == |data| ==>
                && ok && Held(old(buf.Contents()), data) && buf.capacity == old(buf.capacity)
                && file.calls == old(file.calls) && file.contents == old(file.contents)
      ensures n < |data| && ok ==>
                buf.size == 0 && buf.capacity == MoreCapacity(old(buf.capacity), maxBufferSize, buf.alignment)
    {
      hide WritableFileWriter.Valid, Buffer.Contents, PowerOfTwo, Aligned, Roundup, MoreCapacity,
           WritableFileWriter.Flushed;
      ok := true;
      n := TakeIn(data);
      BufferValid();
      assert data[..|data|] == data;
      if n < |data| {
        ok := FlushFull();
        BufferValid();
      }
    }

    static lemma Onward(base: Bytes, data: Bytes, src: nat, n: nat)
      requires src + n <= |data|
      ensures base + data[..src] + data[src..][..n] == base + data[..src + n]
    {
      assert data[..src] + data[src..][..n] == data[..src + n];
    }

    // Flush a full buffer, and let it grow.
    method FlushFull() returns (ok: bool)
      requires Valid() && !useOsBuffer && buf.size == buf.capacity && Aligned(buf.size, buf.alignment)
      modifies this`nextWriteOffset, this`stream, this`lastSyncSize
      modifies file`contents, file`calls, file`ranges, file`handed, buf, buf.mem
      ensures Valid() && stream == old(stream) && (buf.mem == old(buf.mem) || fresh(buf.mem)) && buf.alignment > 0
      ensures ok ==> buf.size == 0 && buf.capacity == MoreCapacity(old(buf.capacity), maxBufferSize, buf.alignment)
      ensures file.calls > old(file.calls) && ok == file.Fine(old(file.calls), file.calls)
    {
      hide WritableFileWriter.Valid, Buffer.Contents, PowerOfTwo, Aligned, Roundup, MoreCapacity,
           WritableFileWriter.Flushed, Doubled, Torn;
      ok := Flush();
      BufferValid();
      if ok {
        Grow();
      }
    }

    lemma BufferValid()
      requires Valid()
      ensures buf.Valid() && buf.capacity > 0
    {
    }

    // The buffer holds these bytes and then those.
    ghost predicate Held(before: Bytes, data: Bytes)
      requires buf.Valid()
      reads buf, buf.mem
    {
      buf.Contents() == before + data
    }

    // buf_.Append, which takes as much as there is room for.
    method TakeIn(data: Bytes) returns (n: nat)
      requires Valid() && pendingSync
      modifies this`logical, this`stream, buf, buf.mem
      ensures Valid() && buf.mem == old(buf.mem) && buf.capacity == old(buf.capacity) && buf.size == old(buf.size) + n
      ensures n <= |data| && logical == old(logical) + data[..n] && stream == old(stream) + data[..n]
      ensures Held(old(buf.Contents()), data[..n]) && n == Min(|data|, old(buf.capacity - buf.size))
      ensures n < |data| ==> buf.size == buf.capacity && Aligned(buf.size, buf.alignment)
    {
      hide Buffer.Contents, PowerOfTwo, Aligned, Tile, SyncPoint, Paged, Roundup;
      ghost var was := buf.Contents();
      n := buf.Append(data);
      if !useOsBuffer {
        PagedMore(stream, file.contents, was, nextWriteOffset, buf.alignment, data[..n]);
      }
      logical, stream := logical + data[..n], stream + data[..n];
    }

    // A failed call takes nothing if the buffer could not be flushed first. Else it takes, with the
    // operating system's buffering, what the file took of the data, and without it what went through
    // the buffer before the flush that failed: nothing exactly if the buffer was full and that was the
    // first one.
    method Append(data: Bytes) returns (ok: bool, ghost taken: nat, ghost flushed: bool, ghost flushes: nat)
      requires Valid() && open
      modifies this, file`contents, file`calls, file`ranges, file`handed, buf, buf.mem
      ensures Valid() && open && (buf.mem == old(buf.mem) || fresh(buf.mem)) && buf.alignment > 0 && pendingSync
      ensures taken <= |data| && (ok ==> taken == |data| && flushed) && (!flushed ==> taken == 0 && useOsBuffer)
      ensures logical == old(logical) + data[..taken]
      ensures stream == if old(TearsFor(|data|)) then old(Doubled()) else old(stream) + data[..taken]
      ensures old(TearsFor(|data|)) ==> !flushed
      ensures fileSize == old(fileSize) + if ok then |data| else 0
      ensures !ok && !useOsBuffer ==>
                && taken == Filled(old(Room()), old(buf.capacity), maxBufferSize, buf.alignment, flushes)
                && (taken == 0 <==> old(Room()) == 0 && flushes == 0)
      ensures !ok && flushed && useOsBuffer ==>
                file.calls > 0 && file.calls - 1 in file.faults && taken == file.Through(file.calls - 1, |data|)
      // Data that fits is kept in the buffer.
      ensures |data| <= old(Room()) ==>
                && ok && Held(old(buf.Contents()), data) && buf.capacity == old(buf.capacity)
                && file.calls == old(file.calls) && file.contents == old(file.contents)
      ensures file.calls >= old(file.calls) && ok == file.Fine(old(file.calls), file.calls)
      ensures useOsBuffer ==> old(file.contents) <= file.contents
      // A buffer that cannot be flushed stays.
      ensures useOsBuffer && |data| > old(Room()) && old(WriteFails()) ==>
                && !flushed && !ok && file.calls == old(file.calls) + 1 && buf.capacity == old(buf.capacity)
                && buf.Contents() == old(buf.Contents()) && file.contents == old(Torn())
      // Past an empty buffer that does not grow, the file takes the data itself.
      ensures useOsBuffer && old(buf.size) == 0 && maxBufferSize <= old(buf.capacity) < |data| ==>
                && ok == (old(file.calls) !in file.faults) && taken == file.Through(old(file.calls), |data|)
                && file.calls == old(file.calls) + 1
    {
      hide Buffer.Contents, PowerOfTwo, Aligned, Tile, SyncPoint, Paged, Roundup, Doubled, Torn, MoreCapacity, Filled;
      pendingSync := true;
      ok, taken, flushed, flushes := TakeAll(data);
      if ok {
        SyncPointGrows(fileSize, fileSize + |data|);
        fileSize := fileSize + |data|;
      }
    }

    // Through the buffer, or past it.
    method TakeAll(data: Bytes) returns (ok: bool, ghost taken: nat, ghost flushed: bool, ghost flushes: nat)
      requires Valid() && pendingSync
      modifies this`nextWriteOffset, this`stream, this`lastSyncSize, this`logical
      modifies file`contents, file`calls, file`ranges, file`handed, buf, buf.mem
      ensures Valid() && (buf.mem == old(buf.mem) || fresh(buf.mem)) && buf.alignment > 0
      ensures taken <= |data| && (ok ==> taken == |data| && flushed) && (!flushed ==> taken == 0 && useOsBuffer)
      ensures logical == old(logical) + data[..taken]
      ensures stream == if old(TearsFor(|data|)) then old(Doubled()) else old(stream) + data[..taken]
      ensures old(TearsFor(|data|)) ==> !flushed
      ensures !ok && !useOsBuffer ==>
                && taken == Filled(old(Room()), old(buf.capacity), maxBufferSize, buf.alignment, flushes)
                && (taken == 0 <==> old(Room()) == 0 && flushes == 0)
      ensures !ok && flushed && useOsBuffer ==>
                file.calls > 0 && file.calls - 1 in file.faults && taken == file.Through(file.calls - 1, |data|)
      ensures |data| <= old(Room()) ==>
                && ok && Held(old(buf.Contents()), data) && buf.capacity == old(buf.capacity)
                && file.calls == old(file.calls) && file.contents == old(file.contents)
      ensures file.calls >= old(file.calls) && ok == file.Fine(old(file.calls), file.calls)
      ensures useOsBuffer ==> old(file.contents) <= file.contents
      ensures useOsBuffer && |data| > old(Room()) && old(WriteFails()) ==>
                && !flushed && !ok && file.calls == old(file.calls) + 1 && buf.capacity == old(buf.capacity)
                && buf.Contents() == old(buf.Contents()) && file.contents == old(Torn())
      ensures useOsBuffer && old(buf.size) == 0 && maxBufferSize <= old(buf.capacity) < |data| ==>
                && ok == (old(file.calls) !in file.faults) && taken == file.Through(old(file.calls), |data|)
                && file.calls == old(file.calls) + 1
    {
      hide WritableFileWriter.Valid, Buffer.Contents, PowerOfTwo, Aligned, Roundup, Doubled, Torn, MoreCapacity, Filled;
      BufferValid();
      taken, flushes := 0, 0;
      ok := MakeRoom(|data|);
      flushed := ok;
      if !ok {
        assert data[..0] == [];
        return;
      }
      BufferValid();
      if !useOsBuffer || buf.capacity >= |data| {
        ok, taken, flushes := Fill(data);
        FilledNothing(old(Room()), old(buf.capacity), maxBufferSize, buf.alignment, flushes);
      } else {
        ok, taken := Direct(data);
      }
    }

    ghost function Room(): nat
      requires buf.Valid()
      reads buf
    {
      buf.capacity - buf.size
    }

    ghost predicate TearsFor(left: nat)
      reads file, buf
    {
      Tears() && left > buf.capacity - buf.size
    }

    // With the file's own buffering, a buffer without enough room is flushed first.
    method MakeRoom(left: nat) returns (ok: bool)
      requires Valid()
      modifies this`nextWriteOffset, this`stream, this`lastSyncSize
      modifies file`contents, file`calls, file`ranges, file`handed, buf, buf.mem
      ensures Valid() && (buf.mem == old(buf.mem) || fresh(buf.mem))
      ensures stream == (if old(TearsFor(left)) then old(Doubled()) else old(stream)) && (old(TearsFor(left)) ==> !ok)
      ensures ok && useOsBuffer ==> left <= buf.capacity - buf.size || buf.size == 0
      ensures !useOsBuffer || left <= old(Room()) ==>
                && ok && buf.capacity == old(buf.capacity) && buf.Contents() == old(buf.Contents())
                && file.calls == old(file.calls) && file.contents == old(file.contents) && buf.mem == old(buf.mem)
      ensures file.calls >= old(file.calls) && ok == file.Fine(old(file.calls), file.calls)
      ensures useOsBuffer ==> old(file.contents) <= file.contents
      ensures useOsBuffer && left > old(Room()) && old(WriteFails()) ==>
                && !ok && file.calls == old(file.calls) + 1 && buf.capacity == old(buf.capacity)
                && buf.Contents() == old(buf.Contents()) && file.contents == old(Torn())
      ensures useOsBuffer && old(buf.size) == 0 && maxBufferSize <= old(buf.capacity) ==>
                buf.capacity == old(buf.capacity) && file.calls == old(file.calls) && ok && buf.size == 0
    {
      hide Buffer.Contents, PowerOfTwo, Aligned, Tile, SyncPoint, Paged, Roundup, Doubled, Torn;
      ok := true;
      if useOsBuffer && buf.capacity - buf.size < left {
        if buf.size > 0 {
          ok := Flush();
          if !ok {
            return;
          }
        }
        Grow();
        assert buf.size == 0;
      }
    }

    // Writing directly to the file, bypassing the empty buffer.
    method Direct(data: Bytes) returns (ok: bool, ghost taken: nat)
      requires Valid() && pendingSync && useOsBuffer && buf.size == 0
      modifies this`logical, this`stream, file`contents, file`calls, buf
      ensures Valid() && buf.mem == old(buf.mem)
      ensures taken <= |data| && (ok ==> taken == |data|)
      ensures logical == old(logical) + data[..taken] && stream == old(stream) + data[..taken]
      ensures ok == (data == [] || old(file.calls) !in file.faults) && old(file.contents) <= file.contents
      ensures taken == file.Through(old(file.calls), |data|)
      ensures file.calls == old(file.calls) + if data == [] then 0 else 1
    {
      hide Buffer.Contents, PowerOfTwo, Aligned, Tile, SyncPoint, Paged, Roundup;
      taken := file.Through(file.calls, |data|);
      ghost var more := data[..taken];
      ok := WriteBuffered(data);
      logical, stream := logical + more, stream + more;
    }

    // Whatever fails, the file gets closed. When nothing failed it holds the first fileSize bytes of
    // what file and buffer held, which are all of them iff there were no more of them.
    method Close() returns (ok: bool)
      requires open ==> Valid()
      modifies this, file, buf, buf.mem
      ensures !open && logical == old(logical) && fileSize == old(fileSize)
      ensures !old(open) ==> ok && file.contents == old(file.contents)
      ensures old(open) ==> file.closed
      ensures old(open) && ok ==> stream == old(stream) && fileSize <= |stream| && file.contents == stream[..fileSize]
      ensures old(open) && ok ==> (file.contents == stream <==> fileSize == old(Length()))
      ensures file.calls >= old(file.calls) && ok == file.Fine(old(file.calls), file.calls)
    {
      hide Buffer.Contents, PowerOfTwo, Aligned, Tile, SyncPoint, Paged, Roundup;
      if !open {
        return true;
      }
      LengthIsExact();
      ok := Flush();
      ghost var flushed := file.contents;
      assert ok ==> stream <= flushed;
      var interim := file.Truncate(fileSize);
      if !interim && ok {
        ok := interim;
      }
      interim := file.Close();
      if !interim && ok {
        ok := interim;
      }
      open := false;
    }

    // Success means that the file holds everything and, unless I/O is direct, that a sync call has
    // succeeded since anything was appended. A sync call is made exactly when one is pending after
    // the flush; if it fails the sync stays pending.
    method Sync(useFsync: bool) returns (ok: bool)
      requires Valid()
      modifies this`nextWriteOffset, this`stream, this`lastSyncSize, this`pendingSync, file, buf, buf.mem
      ensures Valid() && buf.mem == old(buf.mem) && buf.capacity == old(buf.capacity)
      ensures stream == (if old(Tears()) then old(Doubled()) else old(stream)) && (old(Tears()) ==> !ok)
      ensures ok ==> Flushed() && !pendingSync && (directIo || file.durable == file.contents)
      ensures !ok ==> pendingSync == old(pendingSync) && file.durable == old(file.durable)
      ensures file.calls > old(file.calls) && ok == file.Fine(old(file.calls), file.calls)
      ensures file.syncs == old(file.syncs) || file.syncs == old(file.syncs) + [useFsync]
      ensures directIo || !old(pendingSync) ==> file.syncs == old(file.syncs) && file.durable == old(file.durable)
      ensures ok && old(pendingSync) && !directIo ==> file.syncs == old(file.syncs) + [useFsync]
      ensures file.syncs != old(file.syncs) ==>
                && Flushed() && ok == (file.calls - 1 !in file.faults)
                && file.durable == if ok then file.contents else old(file.durable)
      ensures !old(WriteFails()) && bytesPerSync == 0 ==>
                var last := old(file.calls) + if old(buf.size) == 0 then 0 else 1;
                if last in file.faults || directIo || !old(pendingSync)
                then ok == (last !in file.faults) && file.calls == last + 1
                else ok == (last + 1 !in file.faults) && file.calls == last + 2
    {
      hide Buffer.Contents, PowerOfTwo, Aligned, Tile, SyncPoint, Paged, Roundup, Padded, Doubled, Torn;
      ok := Flush();
      if !ok {
        return;
      }
      if !directIo && pendingSync {
        ok := file.Sync(useFsync);
        if !ok {
          return;
        }
      }
      pendingSync := false;
    }
  }

  // ---------- whole runs ----------

  datatype Request = DoAppend(data: Bytes) | DoFlush | DoSync(useFsync: bool)

  // What became of a request: its status, how many bytes it took, whether it tore a write.
  datatype Reply = Reply(ok: bool, taken: nat, tore: bool)

  // The bytes taken by the first requests, in order.
  ghost function Accepted(requests: seq<Request>, replies: seq<Reply>): Bytes
    requires Fitting(requests, replies)
  {
    if replies == [] then []
    else
      var n := |replies| - 1;
      Accepted(requests[..n], replies[..n]) + if requests[n].DoAppend? then requests[n].data[..replies[n].taken] else []
  }

  ghost predicate Fits(request: Request, reply: Reply) {
    match request
    case DoAppend(data) => reply.taken <= |data| && (reply.ok ==> reply.taken == |data|)
    case _ => reply.taken == 0
  }

  ghost predicate Fitting(requests: seq<Request>, replies: seq<Reply>) {
    |requests| == |replies| && forall i :: 0 <= i < |replies| ==> Fits(requests[i], replies[i])
  }

  // What plain appending of all data gives.
  function Plain(requests: seq<Request>): Bytes {
    if requests == [] then []
    else
      var last := requests[|requests| - 1];
      Plain(requests[..|requests| - 1]) + if last.DoAppend? then last.data else []
  }

  // Bytes that failed requests took.
  ghost function Stray(replies: seq<Reply>): nat {
    if replies == [] then 0
    else Stray(replies[..|replies| - 1]) + if replies[|replies| - 1].ok then 0 else replies[|replies| - 1].taken
  }

  ghost predicate NoStray(replies: seq<Reply>) {
    forall i :: 0 <= i < |replies| ==> replies[i].ok || replies[i].taken == 0
  }

  ghost predicate NoTear(replies: seq<Reply>) {
    forall i :: 0 <= i < |replies| ==> !replies[i].tore
  }

  ghost predicate AppendsOk(requests: seq<Request>, replies: seq<Reply>) {
    |replies| == |requests| && forall i :: 0 <= i < |replies| && requests[i].DoAppend? ==> replies[i].ok
  }

  lemma {:induction false} StrayIsNone(replies: seq<Reply>)
    ensures Stray(replies) == 0 <==> NoStray(replies)
  {
    if replies != [] {
      var n := |replies| - 1;
      StrayIsNone(replies[..n]);
      assert forall i :: 0 <= i < n ==> replies[i] == replies[..n][i];
    }
  }

  lemma {:induction false} AcceptedIsPlain(requests: seq<Request>, replies: seq<Reply>)
    requires Fitting(requests, replies) && AppendsOk(requests, replies)
    ensures Accepted(requests, replies) == Plain(requests)
  {
    if replies != [] {
      var n := |replies| - 1;
      assert forall i :: 0 <= i < n ==> replies[i] == replies[..n][i] && requests[i] == requests[..n][i];
      AcceptedIsPlain(requests[..n], replies[..n]);
      if requests[n].DoAppend? {
        assert requests[n].data[..replies[n].taken] == requests[n].data;
      }
    }
  }

  // How many requests there are up to the last Sync that succeeded.
  ghost function LastSync(requests: seq<Request>, replies: seq<Reply>): (n: nat)
    requires |requests| == |replies|
    ensures n <= |replies|
  {
    if replies == [] then 0
    else
      var n := |replies| - 1;
      if requests[n].DoSync? && replies[n].ok then n + 1 else LastSync(requests[..n], replies[..n])
  }

  // Unless I/O is direct or a write was torn, that Sync made all data durable that the requests up to
  // it were accepted with.
  ghost predicate SyncedUp(w: WritableFileWriter, durable: Bytes, requests: seq<Request>, replies: seq<Reply>)
    requires Fitting(requests, replies)
  {
    var n := LastSync(requests, replies);
    !w.directIo && NoTear(replies) ==>
      FittingUpTo(requests, replies, n) && Image(w, durable, Accepted(requests[..n], replies[..n]))
  }

  // The bytes in the file, with the last page padded if the writer writes pages.
  ghost predicate Image(w: WritableFileWriter, contents: Bytes, data: Bytes) {
    if w.useOsBuffer then contents == data
    else w.buf.alignment > 0 && contents == Padded(data, w.buf.alignment)
  }

  ghost predicate FittingUpTo(requests: seq<Request>, replies: seq<Reply>, n: nat) {
    n <= |requests| && n <= |replies| && Fitting(requests[..n], replies[..n])
  }

  lemma SyncedUpOne(w: WritableFileWriter, requests: seq<Request>, request: Request, replies: seq<Reply>, reply: Reply,
                    before: Bytes, durable: Bytes)
    requires Fitting(requests, replies) && Fits(request, reply) && SyncedUp(w, before, requests, replies)
    requires Fitting(requests + [request], replies + [reply])
    requires !(request.DoSync? && reply.ok) ==> durable == before
    requires request.DoSync? && reply.ok && !w.directIo && NoTear(replies + [reply]) ==>
               Image(w, durable, Accepted(requests + [request], replies + [reply]))
    ensures SyncedUp(w, durable, requests + [request], replies + [reply])
  {
    hide Image, Accepted;
    var rs, as_ := requests + [request], replies + [reply];
    var n := |replies|;
    assert rs[..n] == requests && as_[..n] == replies;
    assert rs[..n + 1] == rs && as_[..n + 1] == as_;
    var k := LastSync(requests, replies);
    assert rs[..k] == requests[..k] && as_[..k] == replies[..k];
    assert NoTear(as_) ==> NoTear(replies) by {
      assert forall i :: 0 <= i < n ==> as_[i] == replies[i];
    }
  }

  // A write that fails leaves nothing of its data in the file.
  predicate AllOrNothing(faults: map<nat, nat>) {
    forall call :: call in faults ==> faults[call] == 0
  }

  // What the requests so far amount to.
  ghost predicate Served(w: WritableFileWriter, requests: seq<Request>, replies: seq<Reply>)
    reads w, w.file
  {
    && Fitting(requests, replies) && SyncedUp(w, w.file.durable, requests, replies)
    && w.logical == Accepted(requests, replies) && |w.logical| == w.fileSize + Stray(replies)
    && |w.stream| >= |w.logical| && (|w.stream| == |w.logical| <==> NoTear(replies))
  }

  lemma ServedOne(w: WritableFileWriter, requests: seq<Request>, request: Request, replies: seq<Reply>, reply: Reply,
                  logical: Bytes, stream: Bytes, fileSize: nat)
    requires Fitting(requests, replies) && Fits(request, reply)
    requires Fitting(requests + [request], replies + [reply]) ==>
               SyncedUp(w, w.file.durable, requests + [request], replies + [reply])
    requires logical == Accepted(requests, replies) && |logical| == fileSize + Stray(replies)
    requires |stream| >= |logical| && (|stream| == |logical| <==> NoTear(replies))
    requires w.logical == logical + if request.DoAppend? then request.data[..reply.taken] else []
    requires w.fileSize == fileSize + if reply.ok then reply.taken else 0
    requires if reply.tore then |w.stream| > |stream| && w.logical == logical else |w.stream| == |stream| + reply.taken
    ensures Served(w, requests + [request], replies + [reply])
  {
    hide SyncedUp;
    var rs, as_ := requests + [request], replies + [reply];
    var n := |replies|;
    assert rs[..n] == requests && as_[..n] == replies;
    assert forall i :: 0 <= i < n ==> as_[i] == replies[i] && rs[i] == requests[i];
  }

  // Any sequence of requests, with any faults of the file among them: what the writer has taken is
  // the data of the appends, up to where each of them failed; its file size counts all of it iff no
  // failed Append took bytes; and file and buffer together are exactly that, iff no write was torn.
  method Serve(w: WritableFileWriter, requests: seq<Request>) returns (oks: seq<bool>, ghost replies: seq<Reply>)
    requires w.Valid() && w.open && w.logical == w.stream == w.file.durable == [] && w.fileSize == 0
    modifies w, w.file, w.buf, w.buf.mem
    ensures w.Valid() && w.open && (w.buf.mem == old(w.buf.mem) || fresh(w.buf.mem))
    ensures |oks| == |requests| == |replies| && forall i :: 0 <= i < |oks| ==> oks[i] == replies[i].ok
    ensures Fitting(requests, replies) && w.logical == Accepted(requests, replies)
    ensures w.fileSize == |w.logical| <==> NoStray(replies)
    ensures w.stream == w.logical <==> NoTear(replies)
    ensures AppendsOk(requests, replies) ==> w.logical == Plain(requests) && w.fileSize == |w.logical|
    ensures !w.useOsBuffer || AllOrNothing(w.file.faults) ==> NoTear(replies)
    ensures SyncedUp(w, w.file.durable, requests, replies)
  {
    hide WritableFileWriter.Valid, WritableFileWriter.Flushed, Served, Accepted, Stray, Fitting, SyncedUp;
    oks, replies := [], [];
    ServedNone(w);
    while |oks| < |requests|
      invariant |oks| == |replies| <= |requests| && w.Valid() && w.open
      invariant forall i :: 0 <= i < |oks| ==> oks[i] == replies[i].ok
      invariant w.buf.mem == old(w.buf.mem) || fresh(w.buf.mem)
      invariant !w.useOsBuffer || AllOrNothing(w.file.faults) ==> NoTear(replies)
      invariant Served(w, requests[..|oks|], replies)
    {
      var k := |oks|;
      var ok;
      ghost var reply;
      ok, reply := ServeOne(w, requests[..k], requests[k], replies);
      assert requests[..k + 1] == requests[..k] + [requests[k]];
      oks, replies := oks + [ok], replies + [reply];
    }
    assert requests[..|oks|] == requests;
    ServedAll(w, requests, replies);
  }

  lemma ServedNone(w: WritableFileWriter)
    requires w.Valid() && w.logical == w.stream == w.file.durable == [] && w.fileSize == 0
    ensures Served(w, [], [])
  {
    hide Served, Roundup, PowerOfTwo, Aligned, Tile, SyncPoint, Paged;
    NothingServed(w);
  }

  lemma NothingServed(w: WritableFileWriter)
    requires w.buf.alignment > 0 && w.logical == w.stream == w.file.durable == [] && w.fileSize == 0
    ensures Served(w, [], [])
  {
    RoundupIsLeast(0, w.buf.alignment);
  }

  lemma ServedAll(w: WritableFileWriter, requests: seq<Request>, replies: seq<Reply>)
    requires Served(w, requests, replies) && w.Valid()
    ensures Fitting(requests, replies) && w.logical == Accepted(requests, replies)
    ensures w.fileSize == |w.logical| <==> NoStray(replies)
    ensures w.stream == w.logical <==> NoTear(replies)
    ensures AppendsOk(requests, replies) ==> w.logical == Plain(requests) && w.fileSize == |w.logical|
    ensures SyncedUp(w, w.file.durable, requests, replies)
  {
    hide SyncedUp, Accepted, Stray, Plain, PowerOfTwo, Aligned, Tile, SyncPoint, Paged, Roundup;
    StrayIsNone(replies);
    if AppendsOk(requests, replies) {
      AcceptedIsPlain(requests, replies);
      assert NoStray(replies);
    }
  }

  method ServeOne(w: WritableFileWriter, ghost requests: seq<Request>, request: Request, ghost replies: seq<Reply>)
    returns (ok: bool, ghost reply: Reply)
    requires w.Valid() && w.open && Served(w, requests, replies)
    modifies w, w.file, w.buf, w.buf.mem
    ensures w.Valid() && w.open && (w.buf.mem == old(w.buf.mem) || fresh(w.buf.mem)) && ok == reply.ok
    ensures Served(w, requests + [request], replies + [reply])
    ensures reply.tore ==> w.useOsBuffer && !AllOrNothing(w.file.faults)
  {
    hide WritableFileWriter.Flushed, Accepted, Stray, Buffer.Contents, PowerOfTwo, Aligned, Tile, SyncPoint, Paged,
         Roundup, SyncedUp;
    ghost var logical, stream, fileSize, durable := w.logical, w.stream, w.fileSize, w.file.durable;
    match request {
      case DoAppend(data) =>
        ghost var tore := w.TearsFor(|data|);
        ghost var taken, flushed, flushes;
        ok, taken, flushed, flushes := w.Append(data);
        reply := Reply(ok, taken, tore);
      case DoFlush =>
        ghost var tore := w.Tears();
        ok := w.Flush();
        reply := Reply(ok, 0, tore);
      case DoSync(useFsync) =>
        ghost var tore := w.Tears();
        ok := w.Sync(useFsync);
        reply := Reply(ok, 0, tore);
    }
    ServedSync(w, requests, request, replies, reply, logical, stream, durable);
    ServedOne(w, requests, request, replies, reply, logical, stream, fileSize);
  }

  lemma ServedSync(w: WritableFileWriter, requests: seq<Request>, request: Request, replies: seq<Reply>, reply: Reply,
                   logical: Bytes, stream: Bytes, durable: Bytes)
    requires w.Valid() && Fitting(requests, replies) && Fits(request, reply) && SyncedUp(w, durable, requests, replies)
    requires logical == Accepted(requests, replies)
    requires |stream| >= |logical| && (|stream| == |logical| <==> NoTear(replies))
    requires w.logical == logical + if request.DoAppend? then request.data[..reply.taken] else []
    requires if reply.tore then |w.stream| > |stream| && w.logical == logical else |w.stream| == |stream| + reply.taken
    requires !(request.DoSync? && reply.ok) ==> w.file.durable == durable
    requires request.DoSync? && reply.ok ==>
               !reply.tore && w.Flushed() && (w.directIo || w.file.durable == w.file.contents)
    ensures Fitting(requests + [request], replies + [reply])
    ensures SyncedUp(w, w.file.durable, requests + [request], replies + [reply])
  {
    hide SyncedUp, Padded, PowerOfTwo, Aligned, Tile, SyncPoint, Paged, Roundup;
    var rs, as_ := requests + [request], replies + [reply];
    var n := |replies|;
    assert rs[..n] == requests && as_[..n] == replies;
    assert forall i :: 0 <= i < n ==> as_[i] == replies[i] && rs[i] == requests[i];
    assert w.logical == Accepted(rs, as_);
    SyncedUpOne(w, requests, request, replies, reply, durable, w.file.durable);
  }

  // A new file that was written and closed without a failed Append or Close holds the plain
  // concatenation: without the operating system's buffering always, with it if no write was torn.
  method WriteFile(
    w: WritableFileWriter, requests: seq<Request>) returns (oks: seq<bool>, closed: bool, ghost replies: seq<Reply>)
    requires w.Valid() && w.open && w.logical == w.stream == w.file.durable == [] && w.fileSize == 0
    modifies w, w.file, w.buf, w.buf.mem
    ensures |oks| == |requests| == |replies| && Fitting(requests, replies)
    ensures !w.useOsBuffer || AllOrNothing(w.file.faults) ==> NoTear(replies)
    ensures closed && NoTear(replies) ==>
              var all := Accepted(requests, replies);
              w.fileSize <= |all| && w.file.contents == all[..w.fileSize]
                && (w.file.contents == all <==> NoStray(replies))
    ensures closed && NoTear(replies) && (forall i :: 0 <= i < |oks| && requests[i].DoAppend? ==> oks[i]) ==>
              w.file.contents == Plain(requests)
  {
    hide WritableFileWriter.Valid, WritableFileWriter.Flushed, Accepted, Stray;
    oks, replies := Serve(w, requests);
    assert (forall i :: 0 <= i < |oks| && requests[i].DoAppend? ==> oks[i]) ==> AppendsOk(requests, replies);
    closed := w.Close();
    assert w.logical[..|w.logical|] == w.logical;
  }

  // ---------- instances ----------

  // A flush fails after one of two bytes, and is repeated: that byte is in the file twice.
  method TornFlushRepeats() returns (oks: seq<bool>, contents: Bytes)
    ensures oks == [true, false, true] && contents == [7, 7, 8]
  {
    hide WritableFileWriter.Valid, Roundup, Buffer.Contents;
    var file := new WritableFile(1, map[0 := 1]);
    var w := new WritableFileWriter(file, 0, false, true, 0, 0);
    WholeBytes();
    var a, _, _, _ := w.Append([7, 8]);
    var b := w.Flush();
    var c := w.Flush();
    oks, contents := [a, b, c], file.contents;
  }

  // An Append of which five bytes reach the file fails; another one succeeds. Close truncates the file
  // to the bytes of the second: what is left is a byte of the first.
  method CloseCutsOff() returns (oks: seq<bool>, ghost taken: Bytes, contents: Bytes)
    ensures oks == [false, true, true] && taken == [7, 7, 7, 7, 7, 8] && contents == [7]
  {
    hide WritableFileWriter.Valid, Roundup, Buffer.Contents;
    var file := new WritableFile(1, map[0 := 5]);
    var w := new WritableFileWriter(file, 0, false, true, 0, 0);
    WholeBytes();
    var data := seq(INITIAL_CAPACITY + 1, _ => 7);
    var a, _, _, _ := w.Append(data);
    assert data[..5] == [7, 7, 7, 7, 7];
    assert w.logical == [7, 7, 7, 7, 7];
    var b, _, _, _ := w.Append([8]);
    taken := w.logical;
    var c := w.Close();
    oks, contents := [a, b, c], file.contents;
  }

  // The sync call of the file fails: so does Sync, and the sync stays pending until one succeeds.
  method FailedSyncStays() returns (oks: seq<bool>, pending: seq<bool>, ghost durable: seq<Bytes>)
    ensures oks == [true, false, true] && pending == [true, true, false] && durable == [[], [], [7]]
  {
    hide WritableFileWriter.Valid, Roundup, Buffer.Contents;
    var file := new WritableFile(1, map[2 := 0]);
    var w := new WritableFileWriter(file, 0, false, true, 0, 0);
    WholeBytes();
    var a, _, _, _ := w.Append([7]);
    oks, pending, durable := [a], [w.pendingSync], [file.durable];
    var b := w.Sync(true);
    oks, pending, durable := oks + [b], pending + [w.pendingSync], durable + [file.durable];
    assert !b && w.stream == [7] && file.calls == 3;
    var c := w.Sync(true);
    oks, pending, durable := oks + [c], pending + [w.pendingSync], durable + [file.durable];
  }

  lemma WholeBytes()
    ensures PowerOfTwo(1) && Roundup(INITIAL_CAPACITY, 1) == INITIAL_CAPACITY
  {
  }
}
