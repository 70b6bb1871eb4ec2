/**
 The aligned buffer of rutil/aligned_buffer.h, as bytes inside an allocation at some address.
 */
module AlignedBuffer {
  import opened Coding
  import opened Masks

  // ---------- page arithmetic ----------

  predicate Aligned(x: nat, y: nat) {
    y > 0 && x % y == 0
  }

  function TruncateToPageBoundary(page: nat, s: nat): nat
    requires PowerOfTwo(page)
  {
    hide LowBits, PowerOfTwo;
    LowBitsAreRemainder(s, page);
    DivMod(s, page, s / page, s % page);
    s - LowBits(s, page)
  }

  function Roundup(x: nat, y: nat): nat
    requires y > 0
  {
    ((x + y - 1) / y) * y
  }

  lemma Multiple(q: nat, y: nat)
    requires y > 0
    ensures (q * y) % y == 0
  {
    RemainderUnique(q * y, y, q, 0);
  }

  lemma TruncateIsBelow(page: nat, s: nat)
    requires PowerOfTwo(page)
    ensures var t := TruncateToPageBoundary(page, s);
            Aligned(t, page) && t <= s < t + page && (Aligned(s, page) ==> t == s)
  {
    hide LowBits, PowerOfTwo;
    LowBitsAreRemainder(s, page);
    DivMod(s, page, s / page, s % page);
    Multiple(s / page, page);
  }

  lemma PowerPositive(page: nat)
    requires PowerOfTwo(page)
    ensures page > 0
  {
  }

  // The least multiple of y that is not below x.
  lemma RoundupIsLeast(x: nat, y: nat)
    requires y > 0
    ensures Aligned(Roundup(x, y), y) && x <= Roundup(x, y) < x + y
    ensures forall m: nat :: Aligned(m, y) && x <= m ==> Roundup(x, y) <= m
  {
    var q := (x + y - 1) / y;
    assert x + y - 1 == q * y + (x + y - 1) % y;
    Multiple(q, y);
    forall m: nat | Aligned(m, y) && x <= m
      ensures Roundup(x, y) <= m
    {
      MultiplesApart(m, q * y, y);
    }
  }

  lemma MultiplesApart(m: nat, n: nat, y: nat)
    requires Aligned(m, y) && Aligned(n, y) && n < m + y
    ensures n <= m
  {
    var p, q := m / y, n / y;
    assert m == p * y && n == q * y;
    assert q >= p + 1 ==> q * y >= (p + 1) * y;
  }

  lemma RoundupUnique(x: nat, y: nat, m: nat)
    requires Aligned(m, y) && x <= m < x + y
    ensures m == Roundup(x, y)
  {
    RoundupIsLeast(x, y);
    MultiplesApart(Roundup(x, y), m, y);
  }

  lemma SumOfMultiples(m: nat, n: nat, y: nat)
    requires Aligned(m, y) && Aligned(n, y)
    ensures Aligned(m + n, y)
  {
    var p, q := m / y, n / y;
    assert m == p * y && n == q * y;
    RemainderUnique(m + n, y, p + q, 0);
  }

  // Rounding is unaffected by whole pages in front.
  lemma RoundupShift(m: nat, x: nat, y: nat)
    requires Aligned(m, y)
    ensures Roundup(m + x, y) == m + Roundup(x, y)
  {
    RoundupIsLeast(x, y);
    SumOfMultiples(m, Roundup(x, y), y);
    RoundupUnique(m + x, y, m + Roundup(x, y));
  }

  // A part of a slice that has moved down in memory.
  lemma Moved(was: Bytes, now: Bytes, start: nat, size: nat, offset: nat, n: nat)
    requires |now| == |was| && start + size <= |was| && offset + n <= size
    requires forall j :: start <= j < start + n ==> now[j] == was[j + offset]
    ensures now[start..start + n] == was[start..start + size][offset..offset + n]
  {
    var a, b := now[start..start + n], was[start..start + size][offset..offset + n];
    forall i | 0 <= i < n
      ensures a[i] == b[i]
    {
      assert now[start + i] == was[start + i + offset];
    }
  }

  // ---------- the buffer ----------

  class Buffer {
    const alignment: nat
    var mem: array<Byte>     // the allocation
    var address: nat         // where it lies in memory
    var start: nat           // bufstart_, as an offset in the allocation
    var capacity: nat
    var size: nat

    ghost predicate Valid()
      reads this
    {
      && PowerOfTwo(alignment) && alignment > 0
      && Aligned(capacity, alignment) && Aligned(address + start, alignment)
      && start + capacity <= mem.Length && size <= capacity
    }

    ghost function Contents(): (r: Bytes)
      reads this, mem
      requires Valid()
      ensures |r| == size
    {
      mem[start..start + size]
    }

    constructor (alignment: nat, capacity: nat, address: nat)
      requires PowerOfTwo(alignment)
      ensures Valid() && this.alignment == alignment && this.capacity == Roundup(capacity, alignment)
              && Contents() == []
      ensures fresh(mem)
    {
      this.alignment := alignment;
      mem := new Byte[0];
      new;
      AllocateNewBuffer(capacity, address);
    }

    // BufferStart and CurrentSize: the bytes to write out.
    method Data() returns (r: Bytes)
      requires Valid()
      ensures r == Contents()
    {
      r := mem[start..start + size];
    }

    // The allocator chooses the address; the aligned part of the allocation has room enough.
    method AllocateNewBuffer(requested: nat, address: nat)
      requires PowerOfTwo(alignment)
      modifies this
      ensures Valid() && fresh(mem) && capacity == Roundup(requested, alignment) && Contents() == []
    {
      hide PowerOfTwo, LowBits, TruncateToPageBoundary, Roundup, Aligned;
      PowerPositive(alignment);
      RoundupIsLeast(requested, alignment);
      var bytes := Roundup(requested, alignment);
      mem := new Byte[bytes + alignment](_ => 0);
      this.address := address;
      var p := address + (alignment - 1);
      TruncateIsBelow(alignment, p);
      start := TruncateToPageBoundary(alignment, p) - address;
      capacity := bytes;
      size := 0;
    }

    method Append(src: Bytes) returns (copied: nat)
      requires Valid()
      modifies this, mem
      ensures Valid() && copied == (if |src| <= capacity - old(size) then |src| else capacity - old(size))
      ensures Contents() == old(Contents()) + src[..copied]
      ensures mem == old(mem) && capacity == old(capacity)
    {
      hide PowerOfTwo, Aligned;
      var remaining := capacity - size;
      copied := if |src| <= remaining then |src| else remaining;
      if copied > 0 {
        forall i | 0 <= i < copied {
          mem[start + size + i] := src[i];
        }
        size := size + copied;
      }
    }

    method PadToAlignmentWith(padding: Byte)
      requires Valid()
      modifies this, mem
      ensures Valid() && size == Roundup(old(size), alignment)
      ensures Contents()[..old(size)] == old(Contents())
      ensures forall i :: old(size) <= i < size ==> Contents()[i] == padding
      ensures mem == old(mem) && capacity == old(capacity) && start == old(start) && address == old(address)
    {
      hide PowerOfTwo, Roundup, Aligned;
      RoundupIsLeast(size, alignment);
      var total := Roundup(size, alignment);
      var pad := total - size;
      if pad > 0 {
        forall i | 0 <= i < pad {
          mem[start + size + i] := padding;
        }
        size := size + pad;
      }
    }

    // Moves the tail to the beginning; the two ranges may overlap.
    method RefitTail(offset: nat, tail: nat)
      requires Valid() && offset + tail <= size
      modifies this, mem
      ensures Valid() && Contents() == old(Contents())[offset..offset + tail]
      ensures mem == old(mem) && capacity == old(capacity)
    {
      hide PowerOfTwo, Aligned;
      ghost var was := mem[..];
      if tail > 0 {
        Move(offset, tail);
      }
      size := tail;
      Moved(was, mem[..], start, old(size), offset, tail);
    }

    method Move(offset: nat, tail: nat)
      requires Valid() && offset + tail <= size
      modifies mem
      ensures forall j :: start <= j < start + tail ==> mem[j] == old(mem[..])[j + offset]
    {
      hide PowerOfTwo, Aligned;
      forall j | start <= j < start + tail {
        mem[j] := mem[j + offset];
      }
    }

    method Size(n: nat)
      requires Valid() && n <= size
      modifies this
      ensures Valid() && Contents() == old(Contents())[..n]
      ensures mem == old(mem) && capacity == old(capacity)
    {
      hide PowerOfTwo, Aligned;
      size := n;
    }
  }
}
