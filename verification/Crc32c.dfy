/**
 CRC32C (rutil/crc32c.cc, include/rocksutil/crc32c.h).

 Three layers are related here: schoolbook division of the message polynomial by the CRC32C
 polynomial of section 12.1 of RFC 3720, a bit-at-a-time shift register, and the table-driven,
 alignment-dependent slicing-by-4 loop that the library runs. A 32-bit register is kept as its
 bits, least significant first.
 */
module Crc32c {
  import opened Coding

  type Bits = seq<bool>
  type Register = r: seq<bool> | |r| == 32 witness seq(32, _ => false)

  function ToBits(n: nat, k: nat): (r: Bits)
    ensures |r| == k
  {
    if k == 0 then [] else [n % 2 == 1] + ToBits(n / 2, k - 1)
  }

  function FromBits(b: Bits): nat {
    if b == [] then 0 else (if b[0] then 1 else 0) + 2 * FromBits(b[1..])
  }

  lemma {:induction false} FromToBits(n: nat, k: nat)
    requires n < Pow2(k)
    ensures FromBits(ToBits(n, k)) == n
  {
    if k > 0 {
      FromToBits(n / 2, k - 1);
      assert ToBits(n, k)[1..] == ToBits(n / 2, k - 1);
    }
  }

  lemma {:induction false} ToFromBits(b: Bits)
    ensures FromBits(b) < Pow2(|b|)
    ensures ToBits(FromBits(b), |b|) == b
  {
    if b != [] {
      ToFromBits(b[1..]);
      assert b == [b[0]] + b[1..];
    }
  }

  lemma {:induction false} ToBitsSplit(n: nat, m: nat, k: nat, j: nat)
    requires n < Pow2(k)
    ensures ToBits(n + Pow2(k) * m, k + j) == ToBits(n, k) + ToBits(m, j)
  {
    if k > 0 {
      HalfSum(n, Pow2(k - 1), m);
      ToBitsSplit(n / 2, m, k - 1, j);
    }
  }

  // Halving n + 2hm, and its lowest bit.
  lemma HalfSum(n: nat, h: nat, m: nat)
    ensures n + 2 * h * m >= 0
    ensures (n + 2 * h * m) / 2 == n / 2 + h * m
    ensures (n + 2 * h * m) % 2 == n % 2
  {
    var x := h * m;
    assert 2 * h * m == 2 * x;
  }

  lemma Pow2Values()
    ensures Pow2(8) == 0x100 && Pow2(32) == 0x1_0000_0000
  {
    assert Pow2(4) == 16;
    assert Pow2(8) == 0x100;
    assert Pow2(12) == 0x1000;
    assert Pow2(16) == 0x1_0000;
    assert Pow2(20) == 0x10_0000;
    assert Pow2(24) == 0x100_0000;
    assert Pow2(28) == 0x1000_0000;
  }

  function Zeros(n: nat): (r: Bits)
    ensures |r| == n && forall i :: 0 <= i < n ==> !r[i]
  {
    seq(n, _ => false)
  }

  function Xor(a: Bits, b: Bits): (r: Bits)
    requires |a| == |b|
    ensures |r| == |a| && forall i :: 0 <= i < |a| ==> r[i] == (a[i] != b[i])
  {
    seq(|a|, i requires 0 <= i < |a| => a[i] != b[i])
  }

  function Complement(a: Bits): (r: Bits)
    ensures |r| == |a| && forall i :: 0 <= i < |a| ==> r[i] == !a[i]
  {
    seq(|a|, i requires 0 <= i < |a| => !a[i])
  }

  // The coefficients of x^31 .. x^0 of the CRC32C polynomial 0x11EDC6F41, whose leading x^32 is
  // left implicit.
  const POLY: Register := ToBits(0x82f63b78, 32)

  // ---------- polynomial division ----------

  // The remainder of a polynomial (highest coefficient first) on division by x^32 + POLY.
  function Remainder(w: Bits): (r: Register)
    requires |w| >= 32
    decreases |w|
  {
    if |w| == 32 then w
    else Remainder(if w[0] then Xor(w[1..33], POLY) + w[33..] else w[1..])
  }

  function MessageBits(data: Bytes): (r: Bits)
    ensures |r| == 8 * |data|
  {
    if data == [] then [] else ToBits(data[0], 8) + MessageBits(data[1..])
  }

  // The checksum state after data, by definition: the message followed by 32 zero bits, with the
  // incoming state added to its first 32 coefficients, reduced modulo the polynomial.
  function PolynomialState(r: Register, data: Bytes): Register {
    var w := MessageBits(data) + Zeros(32);
    Remainder(Xor(r, w[..32]) + w[32..])
  }

  // ---------- the shift register ----------

  function BitStep(r: Register): Register {
    var s := r[1..] + [false];
    if r[0] then Xor(s, POLY) else s
  }

  function Flip(r: Register, bit: bool): Register {
    r[0 := r[0] != bit]
  }

  function FoldBits(r: Register, m: Bits): Register
    decreases |m|
  {
    if m == [] then r else FoldBits(BitStep(Flip(r, m[0])), m[1..])
  }

  function Steps(r: Register, n: nat): Register
    decreases n, r
  {
    if n == 0 then r else Steps(BitStep(r), n - 1)
  }

  lemma {:induction false} FoldBitsConcat(r: Register, a: Bits, b: Bits)
    ensures FoldBits(r, a + b) == FoldBits(FoldBits(r, a), b)
    decreases |a|
  {
    if a == [] {
      assert a + b == b;
    } else {
      assert (a + b)[1..] == a[1..] + b;
      FoldBitsConcat(BitStep(Flip(r, a[0])), a[1..], b);
    }
  }

  lemma {:induction false} MessageBitsConcat(a: Bytes, b: Bytes)
    ensures MessageBits(a + b) == MessageBits(a) + MessageBits(b)
  {
    if a == [] {
      assert a + b == b;
    } else {
      assert (a + b)[1..] == a[1..] + b;
      MessageBitsConcat(a[1..], b);
    }
  }

  lemma XorSwap(a: Bits, b: Bits, c: Bits)
    requires |a| == |b| == |c|
    ensures Xor(Xor(a, b), c) == Xor(Xor(a, c), b)
  {
  }

  // Dropping the first coefficient of a window that has the register r added to it.
  lemma ShiftWindow(r: Register, w: Bits)
    requires |w| >= 33
    ensures (Xor(r, w[..32]) + w[32..])[1..] == Xor(r[1..] + [false], w[1..33]) + w[33..]
  {
    var u := (Xor(r, w[..32]) + w[32..])[1..];
    var v := Xor(r[1..] + [false], w[1..33]) + w[33..];
    forall i | 0 <= i < |u|
      ensures u[i] == v[i]
    {
    }
  }

  // Feeding one bit to the register is one step of the division.
  lemma DivisionStep(r: Register, w: Bits)
    requires |w| >= 33
    ensures Remainder(Xor(r, w[..32]) + w[32..])
         == Remainder(Xor(BitStep(Flip(r, w[0])), w[1..33]) + w[33..])
  {
    var u := Xor(r, w[..32]) + w[32..];
    var s: Register := r[1..] + [false];
    ShiftWindow(r, w);
    assert u[1..33] == Xor(s, w[1..33]);
    assert u[33..] == w[33..];
    assert Flip(r, w[0])[1..] == r[1..];
    assert Flip(r, w[0])[0] == u[0];
    if u[0] {
      XorSwap(s, w[1..33], POLY);
    }
  }

  lemma {:induction false} FoldBitsIsRemainder(r: Register, m: Bits)
    ensures var w := m + Zeros(32);
            Remainder(Xor(r, w[..32]) + w[32..]) == FoldBits(r, m)
    decreases |m|
  {
    var w := m + Zeros(32);
    if m == [] {
      assert w[..32] == Zeros(32);
      assert Xor(r, w[..32]) + w[32..] == r;
    } else {
      DivisionStep(r, w);
      assert m[1..] + Zeros(32) == w[1..];
      assert w[1..][..32] == w[1..33] && w[1..][32..] == w[33..];
      FoldBitsIsRemainder(BitStep(Flip(r, m[0])), m[1..]);
    }
  }

  // ---------- linearity of the register ----------

  lemma BitStepLinear(a: Register, b: Register)
    ensures BitStep(Xor(a, b)) == Xor(BitStep(a), BitStep(b))
  {
    var l, r := BitStep(Xor(a, b)), Xor(BitStep(a), BitStep(b));
    forall i | 0 <= i < 32
      ensures l[i] == r[i]
    {
    }
  }

  lemma {:induction false} StepsLinear(a: Register, b: Register, n: nat)
    ensures Steps(Xor(a, b), n) == Xor(Steps(a, n), Steps(b, n))
    decreases n
  {
    if n > 0 {
      BitStepLinear(a, b);
      StepsLinear(BitStep(a), BitStep(b), n - 1);
    }
  }

  lemma {:induction false} StepsAdd(r: Register, n: nat, m: nat)
    ensures Steps(r, n + m) == Steps(Steps(r, n), m)
    decreases n
  {
    if n > 0 {
      StepsAdd(BitStep(r), n - 1, m);
    }
  }

  // n steps over a register whose n low bits are zero only shift it.
  lemma {:induction false} StepsOfHighPart(x: Bits, n: nat)
    requires |x| + n == 32
    ensures Steps(Zeros(n) + x, n) == x + Zeros(n)
    decreases n
  {
    if n == 0 {
      assert Zeros(n) + x == x + Zeros(n);
    } else {
      var s := BitStep(Zeros(n) + x);
      assert s == Zeros(n - 1) + (x + [false]);
      StepsOfHighPart(x + [false], n - 1);
      assert (x + [false]) + Zeros(n - 1) == x + Zeros(n);
    }
  }

  lemma BitStepOfSum(r: Register, m: Register)
    ensures BitStep(Xor(r, m)) == Xor(BitStep(Flip(r, m[0])), m[1..] + [false])
  {
    var s: Register, t: Register := r[1..] + [false], m[1..] + [false];
    assert Xor(r, m)[1..] + [false] == Xor(s, t);
    assert Flip(r, m[0])[1..] == r[1..];
    if r[0] != m[0] {
      XorSwap(s, t, POLY);
    }
  }

  // Feeding at most 32 bits one by one equals adding them all at once and then stepping.
  lemma {:induction false} FoldBitsAsSteps(r: Register, m: Bits)
    requires |m| <= 32
    ensures FoldBits(r, m) == Steps(Xor(r, m + Zeros(32 - |m|)), |m|)
    decreases |m|
  {
    if m == [] {
      assert Xor(r, m + Zeros(32)) == r;
    } else {
      var z: Register := m + Zeros(32 - |m|);
      BitStepOfSum(r, z);
      assert z[1..] + [false] == m[1..] + Zeros(32 - |m[1..]|);
      FoldBitsAsSteps(BitStep(Flip(r, m[0])), m[1..]);
    }
  }

  // ---------- tables and the sliced loop ----------

  type Octet = b: seq<bool> | |b| == 8 witness seq(8, _ => false)

  // The four lookup tables, by the formula that generates them.
  function Table0(i: Octet): Register {
    Steps(i + Zeros(24), 8)
  }

  function Table1(i: Octet): Register {
    NextTable(Table0(i))
  }

  function Table2(i: Octet): Register {
    NextTable(Table1(i))
  }

  function Table3(i: Octet): Register {
    NextTable(Table2(i))
  }

  function NextTable(t: Register): Register {
    Xor(t[8..] + Zeros(8), Table0(t[..8]))
  }

  // The library's one-byte step.
  function ByteStep(l: Register, b: Byte): Register {
    Xor(Table0(Xor(l[..8], ToBits(b, 8))), l[8..] + Zeros(8))
  }

  // The library's four-byte step: half of Slow_CRC32.
  function WordStep(l: Register, p: Bytes): Register
    requires |p| >= 4
  {
    var c := Xor(l, ToBits(DecodeFixed32(p), 32));
    Xor(Xor(Xor(Table3(c[..8]), Table2(c[8..16])), Table1(c[16..24])), Table0(c[24..]))
  }

  lemma NextTableIsEightSteps(t: Register)
    ensures NextTable(t) == Steps(t, 8)
  {
    var low: Register := t[..8] + Zeros(24);
    var high: Register := Zeros(8) + t[8..];
    assert t == Xor(low, high);
    StepsLinear(low, high, 8);
    StepsOfHighPart(t[8..], 8);
    var a, b := NextTable(t), Steps(t, 8);
    forall i | 0 <= i < 32
      ensures a[i] == b[i]
    {
    }
  }

  lemma TableSteps(i: Octet)
    ensures Table1(i) == Steps(i + Zeros(24), 16)
    ensures Table2(i) == Steps(i + Zeros(24), 24)
    ensures Table3(i) == Steps(i + Zeros(24), 32)
  {
    var r: Register := i + Zeros(24);
    NextTableIsEightSteps(Table0(i));
    StepsAdd(r, 8, 8);
    NextTableIsEightSteps(Table1(i));
    StepsAdd(r, 16, 8);
    NextTableIsEightSteps(Table2(i));
    StepsAdd(r, 24, 8);
  }

  lemma ByteStepIsBitFold(l: Register, b: Byte)
    ensures ByteStep(l, b) == FoldBits(l, ToBits(b, 8))
  {
    var m := ToBits(b, 8);
    FoldBitsAsSteps(l, m);
    var x: Register := Xor(l, m + Zeros(24));
    NextTableIsEightSteps(x);
    assert x[8..] == l[8..];
    assert x[..8] == Xor(l[..8], m);
    var a, c := ByteStep(l, b), NextTable(x);
    forall i | 0 <= i < 32
      ensures a[i] == c[i]
    {
    }
  }

  function FourBytes(a: Byte, b: Byte, c: Byte, d: Byte): (r: Bits)
    ensures |r| == 32
  {
    ToBits(a, 8) + (ToBits(b, 8) + (ToBits(c, 8) + ToBits(d, 8)))
  }

  lemma WordBits(p: Bytes)
    requires |p| >= 4
    ensures ToBits(DecodeFixed32(p), 32) == MessageBits(p[..4])
  {
    hide ToBits, MessageBits, FourBytes;
    WordOfFour(p[0], p[1], p[2], p[3]);
    MessageOfFour(p[0], p[1], p[2], p[3]);
    assert p[..4] == [p[0], p[1], p[2], p[3]];
  }

  lemma WordOfFour(a: Byte, b: Byte, c: Byte, d: Byte)
    ensures ToBits(a as int + 0x100 * (b as int + 0x100 * (c as int + 0x100 * d as int)), 32) == FourBytes(a, b, c, d)
  {
    hide ToBits;
    Pow2Values();
    hide Pow2;
    ToBitsSplit(c, d, 8, 8);
    ToBitsSplit(b, c as int + 0x100 * d as int, 8, 16);
    ToBitsSplit(a, b as int + 0x100 * (c as int + 0x100 * d as int), 8, 24);
  }

  lemma MessageOfFour(a: Byte, b: Byte, c: Byte, d: Byte)
    ensures MessageBits([a, b, c, d]) == FourBytes(a, b, c, d)
  {
    hide ToBits, MessageBits;
    MessageOne(a, [b, c, d]);
    MessageOne(b, [c, d]);
    MessageOne(c, [d]);
    MessageOne(d, []);
    MessageNone();
    assert [a] + [b, c, d] == [a, b, c, d] && [b] + [c, d] == [b, c, d] && [c] + [d] == [c, d] && [d] + [] == [d];
  }

  lemma MessageOne(b: Byte, rest: Bytes)
    ensures MessageBits([b] + rest) == ToBits(b, 8) + MessageBits(rest)
  {
    hide ToBits;
    assert ([b] + rest)[1..] == rest;
  }

  lemma MessageNone()
    ensures MessageBits([]) == []
  {
  }

  lemma SlicedPart(x: Octet, k: nat)
    requires k <= 3
    ensures Steps(Zeros(8 * k) + x + Zeros(24 - 8 * k), 32) == Steps(x + Zeros(24), 32 - 8 * k)
  {
    var r: Register := Zeros(8 * k) + x + Zeros(24 - 8 * k);
    StepsAdd(r, 8 * k, 32 - 8 * k);
    var y := x + Zeros(24 - 8 * k);
    assert r == Zeros(8 * k) + y;
    StepsOfHighPart(y, 8 * k);
    assert y + Zeros(8 * k) == x + Zeros(24);
  }

  lemma StepsOfFour(a: Register, b: Register, c: Register, d: Register, n: nat)
    ensures Steps(Xor(Xor(Xor(a, b), c), d), n) == Xor(Xor(Xor(Steps(a, n), Steps(b, n)), Steps(c, n)), Steps(d, n))
  {
    StepsLinear(Xor(Xor(a, b), c), d, n);
    StepsLinear(Xor(a, b), c, n);
    StepsLinear(a, b, n);
  }

  lemma SlicedParts(x: Octet)
    ensures Steps(x + Zeros(24), 32) == Table3(x)
    ensures Steps(Zeros(8) + x + Zeros(16), 32) == Table2(x)
    ensures Steps(Zeros(16) + x + Zeros(8), 32) == Table1(x)
    ensures Steps(Zeros(24) + x + Zeros(0), 32) == Table0(x)
  {
    TableSteps(x);
    SlicedPart(x, 1);
    SlicedPart(x, 2);
    SlicedPart(x, 3);
  }

  lemma JoinWord(x0: Octet, x1: Octet, x2: Octet, x3: Octet)
    ensures x0 + x1 + x2 + x3 == Xor(Xor(Xor(x0 + Zeros(24), Zeros(8) + x1 + Zeros(16)),
                                         Zeros(16) + x2 + Zeros(8)), Zeros(24) + x3 + Zeros(0))
  {
  }

  lemma SlicedSteps(x0: Octet, x1: Octet, x2: Octet, x3: Octet)
    ensures Steps(x0 + x1 + x2 + x3, 32) == Xor(Xor(Xor(Table3(x0), Table2(x1)), Table1(x2)), Table0(x3))
  {
    var n := 32;
    var c0: Register, c1: Register := x0 + Zeros(24), Zeros(8) + x1 + Zeros(16);
    var c2: Register, c3: Register := Zeros(16) + x2 + Zeros(8), Zeros(24) + x3 + Zeros(0);
    assert x0 + x1 + x2 + x3 == Xor(Xor(Xor(c0, c1), c2), c3) by { JoinWord(x0, x1, x2, x3); }
    assert Steps(c0, n) == Table3(x0) by { SlicedParts(x0); }
    assert Steps(c1, n) == Table2(x1) by { SlicedParts(x1); }
    assert Steps(c2, n) == Table1(x2) by { SlicedParts(x2); }
    assert Steps(c3, n) == Table0(x3) by { SlicedParts(x3); }
    StepsOfFour(c0, c1, c2, c3, n);
  }

  lemma WordStepIsBitFold(l: Register, p: Bytes)
    requires |p| >= 4
    ensures WordStep(l, p) == FoldBits(l, MessageBits(p[..4]))
  {
    var m := MessageBits(p[..4]);
    WordBits(p);
    FoldBitsAsSteps(l, m);
    assert m + Zeros(0) == m;
    var c: Register := Xor(l, m);
    assert c == c[..8] + c[8..16] + c[16..24] + c[24..];
    SlicedSteps(c[..8], c[8..16], c[16..24], c[24..]);
  }

  // ---------- the public functions ----------

  function State(crc: Word): Register {
    Complement(ToBits(crc, 32))
  }

  function Finish(r: Register): Word {
    ToFromBits(Complement(r));
    Pow2Values();
    FromBits(Complement(r))
  }

  lemma StateFinish(r: Register)
    ensures State(Finish(r)) == r
  {
    ToFromBits(Complement(r));
  }

  // What Extend means: the bitwise register run over the message.
  function Extend(crc: Word, data: Bytes): Word {
    Finish(FoldBits(State(crc), MessageBits(data)))
  }

  function Value(data: Bytes): Word {
    Extend(0, data)
  }

  lemma ExtendIsPolynomialRemainder(crc: Word, data: Bytes)
    ensures Extend(crc, data) == Finish(PolynomialState(State(crc), data))
  {
    FoldBitsIsRemainder(State(crc), MessageBits(data));
  }

  lemma ExtendComposes(crc: Word, a: Bytes, b: Bytes)
    ensures Extend(Extend(crc, a), b) == Extend(crc, a + b)
  {
    var r := FoldBits(State(crc), MessageBits(a));
    StateFinish(r);
    MessageBitsConcat(a, b);
    FoldBitsConcat(State(crc), MessageBits(a), MessageBits(b));
  }

  lemma FoldSlice(r: Register, data: Bytes, i: nat, j: nat)
    requires i <= j <= |data|
    ensures FoldBits(FoldBits(r, MessageBits(data[..i])), MessageBits(data[i..j]))
            == FoldBits(r, MessageBits(data[..j]))
  {
    assert data[..j] == data[..i] + data[i..j];
    MessageBitsConcat(data[..i], data[i..j]);
    FoldBitsConcat(r, MessageBits(data[..i]), MessageBits(data[i..j]));
  }

  // STEP1 of the source.
  method Step1(l: Register, data: Bytes, p: nat, ghost r: Register) returns (l': Register)
    requires p < |data|
    requires l == FoldBits(r, MessageBits(data[..p]))
    ensures l' == FoldBits(r, MessageBits(data[..p + 1]))
  {
    ByteStepIsBitFold(l, data[p]);
    assert data[p..p + 1] == [data[p]];
    assert MessageBits([data[p]]) == ToBits(data[p], 8) by { assert [data[p]][1..] == []; }
    FoldSlice(r, data, p, p + 1);
    l' := ByteStep(l, data[p]);
  }

  // One of the two word steps of Slow_CRC32.
  method SlicedStep(l: Register, data: Bytes, p: nat, ghost r: Register) returns (l': Register)
    requires p + 4 <= |data|
    requires l == FoldBits(r, MessageBits(data[..p]))
    ensures l' == FoldBits(r, MessageBits(data[..p + 4]))
  {
    hide FoldBits, MessageBits, WordStep;
    WordStepIsBitFold(l, data[p..]);
    assert data[p..][..4] == data[p..p + 4];
    FoldSlice(r, data, p, p + 4);
    l' := WordStep(l, data[p..]);
  }

  method SlowCrc32(l: Register, data: Bytes, p: nat, ghost r: Register) returns (l': Register)
    requires p + 8 <= |data|
    requires l == FoldBits(r, MessageBits(data[..p]))
    ensures l' == FoldBits(r, MessageBits(data[..p + 8]))
  {
    l' := SlicedStep(l, data, p, r);
    l' := SlicedStep(l', data, p + 4, r);
  }

  // The library's loop over a buffer that starts at memory address `address`: byte steps up to a
  // 16-byte boundary, then 16 and 8 bytes at a time, then byte steps again.
  method ExtendImpl(crc: Word, data: Bytes, address: nat) returns (result: Word)
    ensures result == Extend(crc, data)
  {
    ghost var r := State(crc);
    var p, e := 0, |data|;
    var l := Complement(ToBits(crc, 32));
    var x := (address + 15) / 16 * 16 - address;
    assert data[..0] == [];
    if x <= e {
      while p != x
        invariant 0 <= p <= x <= e
        invariant l == FoldBits(r, MessageBits(data[..p]))
        decreases x - p
      {
        l := Step1(l, data, p, r);
        p := p + 1;
      }
    }
    while e - p >= 16
      invariant 0 <= p <= e
      invariant l == FoldBits(r, MessageBits(data[..p]))
    {
      l := SlowCrc32(l, data, p, r);
      p := p + 8;
      l := SlowCrc32(l, data, p, r);
      p := p + 8;
    }
    while e - p >= 8
      invariant 0 <= p <= e
      invariant l == FoldBits(r, MessageBits(data[..p]))
    {
      l := SlowCrc32(l, data, p, r);
      p := p + 8;
    }
    while p != e
      invariant 0 <= p <= e
      invariant l == FoldBits(r, MessageBits(data[..p]))
      decreases e - p
    {
      l := Step1(l, data, p, r);
      p := p + 1;
    }
    assert data[..e] == data;
    result := Finish(l);
  }

  // ---------- masking ----------

  const MASK_DELTA: Word := 0xa282ead8

  function Mask(crc: Word): Word {
    (crc / 0x8000 + crc % 0x8000 * 0x2_0000 + MASK_DELTA) % 0x1_0000_0000
  }

  function Unmask(masked: Word): Word {
    var rot := (masked as int - MASK_DELTA as int) % 0x1_0000_0000;
    rot / 0x2_0000 + rot % 0x2_0000 * 0x8000
  }

  lemma RotateBack(hi: nat, lo: nat)
    requires hi < 0x2_0000 && lo < 0x8000
    ensures (hi + lo * 0x2_0000) / 0x2_0000 == lo && (hi + lo * 0x2_0000) % 0x2_0000 == hi
  {
  }

  lemma MaskRoundTrip(crc: Word)
    ensures Unmask(Mask(crc)) == crc
  {
    var hi, lo := crc / 0x8000, crc % 0x8000;
    RotateBack(hi, lo);
    var rot := hi + lo * 0x2_0000;
    assert (Mask(crc) as int - MASK_DELTA as int) % 0x1_0000_0000 == rot;
  }

  lemma RotateForth(hi: nat, lo: nat)
    requires hi < 0x8000 && lo < 0x2_0000
    ensures (hi + lo * 0x8000) / 0x8000 == lo && (hi + lo * 0x8000) % 0x8000 == hi
  {
  }

  lemma UnmaskRoundTrip(masked: Word)
    ensures Mask(Unmask(masked)) == masked
  {
    var rot := (masked as int - MASK_DELTA as int) % 0x1_0000_0000;
    RotateForth(rot / 0x2_0000, rot % 0x2_0000);
    assert rot == rot % 0x2_0000 + rot / 0x2_0000 * 0x2_0000;
  }
}
