/**
 The readahead file (rutil/file_reader_writer.cc:315-383): a read cache over a random-access file.
 The outcome of the read of the underlying file, if one is made, is a parameter.
 */
module Readahead {
  import opened Coding

  // A read that was done put its bytes into the buffer given, or left them elsewhere (as a mapped
  // file does); one that failed may have overwritten the beginning of the buffer.
  datatype Outcome = Done(inPlace: bool) | Failed(left: Bytes)

  datatype Answer = Answer(bytes: Bytes) | Error

  datatype Cache = Cache(buffer: Bytes, offset: nat, len: nat)

  // What a read of an unchanging file returns: short only at the end of the file.
  function Direct(data: Bytes, offset: nat, n: nat): (r: Bytes)
    ensures |r| <= n
  {
    if offset >= |data| then [] else data[offset..Min(offset + n, |data|)]
  }

  function Patch(buffer: Bytes, bytes: Bytes): (r: Bytes)
    requires |bytes| <= |buffer|
    ensures |r| == |buffer|
  {
    bytes + buffer[|bytes|..]
  }

  // The cache says what the file holds.
  predicate True(data: Bytes, c: Cache) {
    c.len <= |c.buffer|
      && (c.len > 0 ==> c.offset + c.len <= |data| && c.buffer[..c.len] == data[c.offset..c.offset + c.len])
  }

  predicate Possible(size: nat, outcome: Outcome) {
    outcome.Failed? ==> |outcome.left| <= size
  }

  predicate Cached(c: Cache, offset: nat) {
    c.offset <= offset < c.offset + c.len
  }

  // How many bytes of a read at `offset` come from the cache.
  function Copied(c: Cache, offset: nat, n: nat): nat {
    if Cached(c, offset) then Min(c.len - (offset - c.offset), n) else 0
  }

  function Front(c: Cache, offset: nat, n: nat): (r: Bytes)
    requires c.len <= |c.buffer|
    ensures |r| == Copied(c, offset, n)
  {
    if Cached(c, offset) then c.buffer[offset - c.offset..offset - c.offset + Copied(c, offset, n)] else []
  }

  // One read: the answer and the cache after it.
  function Step(data: Bytes, forward: bool, c: Cache, offset: nat, n: nat, outcome: Outcome): (r: (Answer, Cache))
    requires c.len <= |c.buffer| && Possible(|c.buffer|, outcome)
    ensures |r.1.buffer| == |c.buffer| && r.1.len <= |c.buffer|
  {
    var size := |c.buffer|;
    if n >= size || forward then
      (if outcome.Failed? then Error else Answer(Direct(data, offset, n)), c)
    else
      var copied := Copied(c, offset, n);
      var front := Front(c, offset, n);
      if Cached(c, offset) && copied == n then (Answer(front), c)
      else
        match outcome
        case Failed(left) => (Error, c.(buffer := Patch(c.buffer, left)))
        case Done(inPlace) =>
          var got := Direct(data, offset + copied, size);
          (Answer(front + got[..Min(|got|, n - copied)]),
           if inPlace then Cache(Patch(c.buffer, got), offset + copied, |got|) else c.(len := 0))
  }

  // ---------- transparency ----------

  lemma FrontIsDirect(data: Bytes, c: Cache, offset: nat, n: nat)
    requires True(data, c) && Cached(c, offset)
    ensures var copied := Copied(c, offset, n);
            offset + copied <= |data| && Front(c, offset, n) == data[offset..offset + copied]
  {
    var copied, skip := Copied(c, offset, n), offset - c.offset;
    SliceOfSlice(c.buffer, 0, c.len, skip, copied);
    SliceOfSlice(data, c.offset, c.offset + c.len, skip, copied);
    assert c.buffer[0..c.len] == c.buffer[..c.len];
  }

  lemma SliceOfSlice(s: Bytes, from: nat, to: nat, skip: nat, n: nat)
    requires from <= to <= |s| && skip + n <= to - from
    ensures s[from..to][skip..skip + n] == s[from + skip..from + skip + n]
  {
    var whole := s[from..to];
    var a, b := whole[skip..skip + n], s[from + skip..from + skip + n];
    forall i | 0 <= i < n
      ensures a[i] == b[i]
    {
      assert a[i] == whole[skip + i] == s[from + (skip + i)];
    }
  }

  lemma DirectWhole(data: Bytes, offset: nat, n: nat)
    requires offset + n <= |data|
    ensures Direct(data, offset, n) == data[offset..offset + n]
  {
  }

  lemma DirectSplit(data: Bytes, front: Bytes, offset: nat, n: nat, size: nat)
    requires |front| <= n < size
    requires front == [] || (offset + |front| <= |data| && front == data[offset..offset + |front|])
    ensures var got := Direct(data, offset + |front|, size);
            front + got[..Min(|got|, n - |front|)] == Direct(data, offset, n)
  {
    var from, got := offset + |front|, Direct(data, offset + |front|, size);
    var m := Min(|got|, n - |front|);
    if from < |data| {
      var end := Min(from + size, |data|);
      SliceOfSlice(data, from, end, 0, m);
      assert got[0..m] == got[..m] == data[from..from + m];
      assert data[offset..from] + data[from..from + m] == data[offset..from + m];
      assert front == data[offset..from];
    } else {
      assert got == [] && got[..m] == [];
      assert front + [] == front;
      assert front != [] ==> from == |data|;
    }
  }

  lemma RefilledTrue(data: Bytes, buffer: Bytes, offset: nat)
    ensures var got := Direct(data, offset, |buffer|);
            True(data, Cache(Patch(buffer, got), offset, |got|))
  {
  }

  // A read that does not fail answers what a direct read would, and leaves a true cache.
  lemma ReadIsDirect(data: Bytes, forward: bool, c: Cache, offset: nat, n: nat, outcome: Outcome)
    requires True(data, c) && outcome.Done?
    ensures var r := Step(data, forward, c, offset, n, outcome);
            r.0 == Answer(Direct(data, offset, n)) && True(data, r.1)
  {
    hide Direct, Patch, Front, True;
    TrueLen(data, c);
    if n < |c.buffer| && !forward {
      var front := Front(c, offset, n);
      if Cached(c, offset) {
        FrontIsDirect(data, c, offset, n);
        DirectWhole(data, offset, |front|);
      }
      DirectSplit(data, front, offset, n, |c.buffer|);
      RefilledTrue(data, c.buffer, offset + |front|);
      NothingTrue(data, c.(len := 0));
    }
  }

  lemma NothingTrue(data: Bytes, c: Cache)
    requires c.len == 0
    ensures True(data, c)
  {
  }

  datatype Read = Read(offset: nat, n: nat, outcome: Outcome)

  // The answers to a sequence of reads, and the cache in the end.
  function Run(data: Bytes, forward: bool, c: Cache, requests: seq<Read>): (r: (seq<Answer>, Cache))
    requires c.len <= |c.buffer| && forall i :: 0 <= i < |requests| ==> Possible(|c.buffer|, requests[i].outcome)
    ensures |r.0| == |requests|
    decreases |requests|
  {
    if requests == [] then ([], c)
    else
      var first := Step(data, forward, c, requests[0].offset, requests[0].n, requests[0].outcome);
      var rest := Run(data, forward, first.1, requests[1..]);
      ([first.0] + rest.0, rest.1)
  }

  // Reading through the readahead buffer is reading the file, for every sequence of reads that do
  // not fail.
  lemma {:induction false} Transparent(data: Bytes, forward: bool, c: Cache, requests: seq<Read>)
    requires True(data, c) && forall i :: 0 <= i < |requests| ==> requests[i].outcome.Done?
    ensures var answers := Run(data, forward, c, requests).0;
            forall i :: 0 <= i < |requests| ==> answers[i] == Answer(Direct(data, requests[i].offset, requests[i].n))
    ensures True(data, Run(data, forward, c, requests).1)
    decreases |requests|
  {
    if requests != [] {
      hide Step, Direct, True;
      ReadIsDirect(data, forward, c, requests[0].offset, requests[0].n, requests[0].outcome);
      TrueLen(data, c);
      var first := Step(data, forward, c, requests[0].offset, requests[0].n, requests[0].outcome);
      Transparent(data, forward, first.1, requests[1..]);
    }
  }

  lemma TrueLen(data: Bytes, c: Cache)
    requires True(data, c)
    ensures c.len <= |c.buffer|
  {
  }

  // ---------- what is read ahead ----------

  // The read does not touch the buffer.
  predicate Untouched(c: Cache, offset: nat, n: nat) {
    n >= |c.buffer| || (Cached(c, offset) && Copied(c, offset, n) == n)
  }

  // The cache holds what the file has from `from` on, as much as a buffer takes.
  predicate Holds(data: Bytes, c: Cache, from: nat) {
    True(data, c) && c.offset == from && c.len == |Direct(data, from, |c.buffer|)|
  }

  // A read that goes to the file and puts its bytes in place fetches a whole buffer, from the first
  // byte that was not cached.
  lemma ReadFetches(data: Bytes, c: Cache, offset: nat, n: nat)
    requires True(data, c) && !Untouched(c, offset, n)
    ensures var from := if Cached(c, offset) then c.offset + c.len else offset;
            Holds(data, Step(data, false, c, offset, n, Done(true)).1, from)
  {
    hide Direct, Patch, True;
    TrueLen(data, c);
    RefilledTrue(data, c.buffer, offset + Copied(c, offset, n));
  }

  // A shorter read inside the bytes cached is answered from them, whatever the file would do.
  predicate Inside(c: Cache, offset: nat, n: nat) {
    c.offset <= offset < c.offset + c.len && offset + n <= c.offset + c.len && n < |c.buffer|
  }

  lemma InsideIsServed(data: Bytes, c: Cache, offset: nat, n: nat, outcome: Outcome)
    requires True(data, c) && Inside(c, offset, n) && Possible(|c.buffer|, outcome)
    ensures Step(data, false, c, offset, n, outcome) == (Answer(data[offset..offset + n]), c)
    ensures offset + n <= |data|
  {
    hide Direct, True, Front;
    TrueLen(data, c);
    FrontIsDirect(data, c, offset, n);
  }

  // So after one such read all further reads within the bytes fetched are right, even if the file fails
  // every time.
  lemma {:induction false} ReadsAhead(data: Bytes, c: Cache, requests: seq<Read>)
    requires True(data, c) && forall i :: 0 <= i < |requests| ==> Possible(|c.buffer|, requests[i].outcome)
    requires forall i :: 0 <= i < |requests| ==> Inside(c, requests[i].offset, requests[i].n)
    ensures var r := Run(data, false, c, requests);
            && r.1 == c
            && forall i :: 0 <= i < |requests| ==>
                 requests[i].offset + requests[i].n <= |data|
                 && r.0[i] == Answer(data[requests[i].offset..requests[i].offset + requests[i].n])
    decreases |requests|
  {
    if requests != [] {
      hide Step, Inside, True;
      InsideIsServed(data, c, requests[0].offset, requests[0].n, requests[0].outcome);
      ReadsAhead(data, c, requests[1..]);
    }
  }

  // ---------- failed reads ----------

  // After a read that failed in a given way the cache is still true iff no cached byte was overwritten
  // with a different one.
  lemma AfterOneFailure(data: Bytes, c: Cache, offset: nat, n: nat, outcome: Outcome)
    requires True(data, c) && outcome.Failed? && Possible(|c.buffer|, outcome)
    ensures var r := Step(data, false, c, offset, n, outcome);
            var kept := Min(c.len, |outcome.left|);
            True(data, r.1) <==>
              n >= |c.buffer| || (Cached(c, offset) && Copied(c, offset, n) == n)
                || outcome.left[..kept] == c.buffer[..kept]
  {
    var left := outcome.left;
    var kept := Min(c.len, |left|);
    var now := Patch(c.buffer, left);
    var r := Step(data, false, c, offset, n, outcome);
    if n < |c.buffer| && r.0.Error? {
      assert now[..c.len] == left[..kept] + c.buffer[kept..c.len];
      assert c.buffer[..c.len] == c.buffer[..kept] + c.buffer[kept..c.len];
      if left[..kept] != c.buffer[..kept] {
        assert now[..c.len][..kept] == left[..kept];
        assert c.buffer[..c.len][..kept] == c.buffer[..kept];
      }
    }
  }

  // A failure of the file is passed on, unless the cache had all the bytes; reads that are forwarded leave
  // the cache alone.
  lemma FailuresPassed(data: Bytes, forward: bool, c: Cache, offset: nat, n: nat, outcome: Outcome)
    requires c.len <= |c.buffer| && Possible(|c.buffer|, outcome)
    ensures var r := Step(data, forward, c, offset, n, outcome);
            && (r.0.Error? <==> outcome.Failed? && (forward || n >= |c.buffer| || !Untouched(c, offset, n)))
            && (forward || n >= |c.buffer| ==> r.1 == c)
  {
  }

  // The cache survives a read however it fails, iff the read does not touch the buffer or nothing was
  // cached.
  lemma AfterFailure(data: Bytes, c: Cache, offset: nat, n: nat)
    requires True(data, c)
    ensures (forall left: Bytes :: |left| <= |c.buffer| ==> True(data, Step(data, false, c, offset, n, Failed(left)).1))
            <==> Untouched(c, offset, n) || c.len == 0
  {
    hide Step, True;
    TrueLen(data, c);
    forall left: Bytes | |left| <= |c.buffer| && (Untouched(c, offset, n) || c.len == 0)
      ensures True(data, Step(data, false, c, offset, n, Failed(left)).1)
    {
      AfterOneFailure(data, c, offset, n, Failed(left));
    }
    if c.len > 0 && !Untouched(c, offset, n) {
      var other: Byte := if c.buffer[0] == 0 then 1 else 0;
      var left: Bytes := [other];
      AfterOneFailure(data, c, offset, n, Failed(left));
      assert left[..1][0] != c.buffer[..1][0];
      assert !True(data, Step(data, false, c, offset, n, Failed(left)).1);
    }
  }

  // A failed read past the cached range, and then a wrong answer from the cache.
  lemma StaleAnswer()
    ensures var data := [1, 2, 3, 4, 5, 6, 7, 8];
            var c := Cache([1, 2, 3, 4], 0, 4);
            var failed := Step(data, false, c, 6, 2, Failed([9]));
            && True(data, c) && failed.0 == Error
            && Step(data, false, failed.1, 0, 2, Done(true)).0 == Answer([9, 2])
            && Direct(data, 0, 2) == [1, 2]
  {
    var data: Bytes := [1, 2, 3, 4, 5, 6, 7, 8];
    var c := Cache([1, 2, 3, 4], 0, 4);
    assert c.buffer[..4] == data[0..4];
    assert Patch(c.buffer, [9]) == [9, 2, 3, 4];
  }

  // ---------- the object ----------

  class ReadaheadRandomAccessFile {
    const data: Bytes         // the underlying file
    const readaheadSize: nat
    const forwardCalls: bool
    const buffer: array<Byte>
    var bufferOffset: nat
    var bufferLen: nat

    ghost predicate Valid()
      reads this
    {
      buffer.Length == readaheadSize && bufferLen <= readaheadSize
    }

    ghost function View(): Cache
      reads this, buffer
    {
      Cache(buffer[..], bufferOffset, bufferLen)
    }

    constructor (data: Bytes, readaheadSize: nat, forwardCalls: bool)
      ensures Valid() && True(data, View()) && this.data == data && this.forwardCalls == forwardCalls && fresh(buffer)
    {
      this.data, this.readaheadSize, this.forwardCalls := data, readaheadSize, forwardCalls;
      buffer := new Byte[readaheadSize](_ => 0);
      bufferOffset, bufferLen := 0, 0;
    }

    // The underlying read into the buffer.
    method Refill(offset: nat, outcome: Outcome) returns (ok: bool, got: Bytes)
      requires Valid() && Possible(readaheadSize, outcome)
      modifies buffer
      ensures ok == outcome.Done? && |got| <= readaheadSize
      ensures ok ==> got == Direct(data, offset, readaheadSize)
      ensures buffer[..] == match outcome
                            case Failed(left) => Patch(old(buffer[..]), left)
                            case Done(inPlace) => if inPlace then Patch(old(buffer[..]), got) else old(buffer[..])
    {
      ok := outcome.Done?;
      got := Direct(data, offset, readaheadSize);
      if outcome.Failed? {
        Put(outcome.left);
      } else if outcome.inPlace {
        Put(got);
      }
    }

    static lemma FrontSlice(c: Cache, offset: nat, n: nat)
      requires c.len <= |c.buffer| && Cached(c, offset)
      ensures Front(c, offset, n) == c.buffer[offset - c.offset..offset - c.offset + Copied(c, offset, n)]
    {
    }

    method Put(bytes: Bytes)
      requires |bytes| <= buffer.Length
      modifies buffer
      ensures buffer[..] == Patch(old(buffer[..]), bytes)
    {
      forall i | 0 <= i < |bytes| {
        buffer[i] := bytes[i];
      }
    }

    method Read(offset: nat, n: nat, outcome: Outcome) returns (answer: Answer)
      requires Valid() && Possible(readaheadSize, outcome)
      modifies this, buffer
      ensures Valid() && (answer, View()) == Step(data, forwardCalls, old(View()), offset, n, outcome)
    {
      hide Direct, Patch, Front;
      ghost var front := Front(View(), offset, n);
      if n >= readaheadSize || forwardCalls {
        return if outcome.Failed? then Error else Answer(Direct(data, offset, n));
      }
      var scratch: Bytes := [];
      var copied := 0;
      if offset >= bufferOffset && offset < bufferLen + bufferOffset {
        var inBuffer := offset - bufferOffset;
        copied := Min(bufferLen - inBuffer, n);
        scratch := buffer[inBuffer..inBuffer + copied];
        FrontSlice(View(), offset, n);
        assert scratch == buffer[..][inBuffer..inBuffer + copied];
        if copied == n {
          return Answer(scratch);
        }
      }
      assert scratch == front;
      var ok, got := Refill(offset + copied, outcome);
      if !ok {
        return Error;
      }
      var left := Min(|got|, n - copied);
      answer := Answer(scratch + got[..left]);
      if outcome.inPlace {
        bufferOffset, bufferLen := offset + copied, |got|;
      } else {
        bufferLen := 0;
      }
    }
  }
}
