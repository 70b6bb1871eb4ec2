/**
 What the checksum and the log format are in numbers: the CRC32C polynomial with its bit order and the
 masking constant (include/rocksutil/crc32c.h:29-46), and the header layout and type codes of a file
 (rutil/log_format.h:17-42).
 */
module CrcCheck {
  import opened Coding
  import opened Crc32c
  import opened LogFormat

  // ---------- a known checksum ----------

  function Trues(n: nat): (r: Bits)
    ensures |r| == n && forall i :: 0 <= i < n ==> r[i]
  {
    seq(n, _ => true)
  }

  // Ones cancel the ones of the register, from its low end.
  lemma {:induction false} Cancels(m: nat)
    requires m <= 32
    ensures FoldBits(Trues(m) + Zeros(32 - m), Trues(m)) == Zeros(32)
    decreases m
  {
    hide POLY;
    if m > 0 {
      var r: Register := Trues(m) + Zeros(32 - m);
      assert Flip(r, true)[1..] + [false] == Trues(m - 1) + Zeros(33 - m);
      assert Trues(m)[1..] == Trues(m - 1);
      Cancels(m - 1);
    } else {
      assert Trues(0) + Zeros(32) == Zeros(32);
    }
  }

  // A single one after zeroes brings in the polynomial.
  lemma {:induction false} BringsPolynomial(k: nat)
    ensures FoldBits(Zeros(32), Zeros(k) + [true]) == POLY
    decreases k
  {
    hide POLY;
    var m := Zeros(k) + [true];
    if k > 0 {
      assert Flip(Zeros(32), false) == Zeros(32) && Zeros(32)[1..] + [false] == Zeros(32);
      assert m[1..] == Zeros(k - 1) + [true];
      BringsPolynomial(k - 1);
    } else {
      var r := Flip(Zeros(32), true);
      assert r[1..] + [false] == Zeros(32);
      assert Xor(Zeros(32), POLY) == POLY;
      assert m == [true] && m[1..] == [];
    }
  }

  lemma {:induction false} ComplementIs(v: nat, k: nat)
    requires v < Pow2(k)
    ensures Complement(ToBits(v, k)) == ToBits(Pow2(k) - 1 - v, k)
  {
    if k > 0 {
      ComplementIs(v / 2, k - 1);
      var w := Pow2(k) - 1 - v;
      assert w / 2 == Pow2(k - 1) - 1 - v / 2 && w % 2 == 1 - v % 2;
      assert ToBits(v, k) == [v % 2 == 1] + ToBits(v / 2, k - 1);
    }
  }

  lemma {:induction false} OnesBits(k: nat)
    ensures ToBits(Pow2(k) - 1, k) == Trues(k)
  {
    if k > 0 {
      OnesBits(k - 1);
      assert (Pow2(k) - 1) / 2 == Pow2(k - 1) - 1;
    }
  }

  lemma {:induction false} OnesMessage(n: nat)
    ensures MessageBits(seq(n, _ => 0xff)) == Trues(8 * n)
  {
    hide ToBits;
    if n > 0 {
      var data: Bytes := seq(n, _ => 0xff);
      OnesBits(8);
      Pow2Values();
      assert data[1..] == seq(n - 1, _ => 0xff);
      OnesMessage(n - 1);
    }
  }

  lemma OctetBits()
    ensures MessageBits([0xff, 0xff, 0xff, 0xff]) == Trues(32) && MessageBits([0x80]) == Zeros(7) + [true]
  {
    hide ToBits;
    OnesMessage(4);
    var data: Bytes := seq(4, _ => 0xff);
    assert data == [0xff, 0xff, 0xff, 0xff];
    NoBits(7);
    assert Pow2(7) == 128 by { assert Pow2(3) == 8; }
    ToBitsSplit(0, 1, 7, 1);
    OneBit();
  }

  lemma OneBit()
    ensures ToBits(1, 1) == [true]
  {
  }

  // Four bytes of ones clear the register, and the highest bit of the next byte is the last one of the
  // message: what is left is the polynomial, so the checksum is its complement.
  lemma CheckValue()
    ensures Value([0xff, 0xff, 0xff, 0xff, 0x80]) == 0x7d09_c487
  {
    hide FoldBits, ToBits, MessageBits, POLY;
    var a, b: Bytes := [0xff, 0xff, 0xff, 0xff], [0x80];
    assert a + b == [0xff, 0xff, 0xff, 0xff, 0x80];
    OctetBits();
    ZeroState();
    MessageAppend(a, b);
    FoldBitsConcat(Trues(32), Trues(32), Zeros(7) + [true]);
    Cancels(32);
    assert Trues(32) + Zeros(0) == Trues(32);
    BringsPolynomial(7);
    PolyFinish();
  }

  lemma ZeroState()
    ensures State(0) == Trues(32)
  {
    hide ToBits;
    NoBits(32);
  }

  lemma {:induction false} NoBits(k: nat)
    ensures ToBits(0, k) == Zeros(k)
  {
    if k > 0 {
      NoBits(k - 1);
    }
  }

  lemma {:induction false} MessageAppend(a: Bytes, b: Bytes)
    ensures MessageBits(a + b) == MessageBits(a) + MessageBits(b)
    decreases |a|
  {
    hide ToBits;
    if a == [] {
      assert a + b == b;
    } else {
      assert (a + b)[1..] == a[1..] + b;
      MessageAppend(a[1..], b);
    }
  }

  lemma PolyFinish()
    ensures Finish(POLY) == 0x7d09_c487
  {
    hide ToBits, FromBits;
    Pow2Values();
    ComplementIs(0x82f6_3b78, 32);
    FromToBits(0x7d09_c487, 32);
  }

  // The same checksum as it is stored.
  lemma MaskedCheckValue()
    ensures EncodeFixed32(Mask(0x7d09_c487)) == [0xeb, 0xe4, 0x91, 0x2b]
  {
    hide Mask, EncodeFixed32;
    MaskIs();
    Fixed32Injective([0xeb, 0xe4, 0x91, 0x2b]);
  }

  lemma MaskIs()
    ensures Mask(0x7d09_c487) == 0x2b91_e4eb
  {
    var crc: Word := 0x7d09_c487;
    assert crc == 0x8000 * 0xfa13 + 0x4487;
    assert crc / 0x8000 == 0xfa13 && crc % 0x8000 == 0x4487;
  }

  // ---------- known records ----------

  // The whole file of a log whose one record is the letter a: after the checksum its length, the type,
  // for a recyclable log its number, and the letter.
  lemma LegacyImage()
    ensures LogBytes(Format(false, 0), 0, [[97]]) == EncodeFixed32(Mask(Value([1, 97]))) + [1, 0, 1, 97]
  {
    hide Value, Mask, EncodeFixed32, LogBytes;
    OneByteLog(Format(false, 0), 97);
    assert [1] + [] + [97] == [1, 97];
  }

  lemma RecyclableImage()
    ensures LogBytes(Format(true, 0x0403_0201), 0, [[97]])
            == EncodeFixed32(Mask(Value([5, 1, 2, 3, 4, 97]))) + [1, 0, 5, 1, 2, 3, 4, 97]
  {
    hide Value, Mask, LogBytes;
    var f := Format(true, 0x0403_0201);
    OneByteLog(f, 97);
    assert f.NumberBytes() == [1, 2, 3, 4];
    assert [5] + [1, 2, 3, 4] + [97] == [5, 1, 2, 3, 4, 97];
  }

  lemma OneByteLog(f: Format, b: Byte)
    ensures LogBytes(f, 0, [[b]]) == Physical(f, if f.recycle then 5 else 1, [b])
  {
    hide Physical;
    var t := if f.recycle then 5 else 1;
    assert [b][..1] == [b];
    assert RecordBytes(f, 0, [b]) == ZeroBytes(0) + (Physical(f, t, [b]) + []);
    assert LogBytes(f, 0, [[b]]) == RecordBytes(f, 0, [b]) + [];
  }

  // ---------- the types of fragments ----------

  // What a file says at the start of each block that a record's bytes reach: Full, or First, Middle and
  // Last.
  function TypeAt(recycle: bool, i: nat, size: nat): nat {
    var t := if i == 0 then (if size <= 32768 then 1 else 2) else if size <= 32768 * (i + 1) then 4 else 3;
    if recycle then t + 4 else t
  }

  lemma FragmentTypes(f: Format, record: Bytes, i: nat)
    requires 32768 * i < |RecordBytes(f, 0, record)|
    ensures var x := RecordBytes(f, 0, record);
            32768 * i + 6 < |x| && x[32768 * i + 6] == TypeAt(f.recycle, i, |x|)
  {
    hide Fragments;
    var x := Fragments(f, 0, record, true);
    assert RecordBytes(f, 0, record) == ZeroBytes(0) + x == x;
    TypesFrom(f, 0, record, true, i);
  }

  lemma {:induction false} TypesFrom(f: Format, q: nat, left: Bytes, begin: bool, i: nat)
    requires q % 32768 == 0 && 32768 * i < |Fragments(f, q, left, begin)|
    ensures var x := Fragments(f, q, left, begin);
            && 32768 * i + 6 < |x|
            && x[32768 * i + 6] == TypeAt(f.recycle, if begin then i else i + 1, if begin then |x| else |x| + 32768)
    decreases |left|
  {
    hide Fragments, Physical;
    var n := Min(|left|, Available(f, q));
    var t := FragmentType(f.recycle, begin, n == |left|);
    var head := Physical(f, t, left[..n]);
    var x := Fragments(f, q, left, begin);
    Unfolded(f, q, left, begin);
    TypeByte(f, t, left[..n]);
    if n < |left| {
      var rest := Fragments(f, BlockEnd(q), left[n..], false);
      assert x == head + rest && |head| == 32768;
      if i > 0 {
        TypesFrom(f, BlockEnd(q), left[n..], false, i - 1);
        assert x[32768 * i + 6] == rest[32768 * (i - 1) + 6];
      }
    } else {
      assert x == head + [] && |head| <= 32768;
    }
  }

  lemma Unfolded(f: Format, q: nat, left: Bytes, begin: bool)
    requires HeaderFits(f, q)
    ensures var n := Min(|left|, Available(f, q));
            Fragments(f, q, left, begin)
            == Physical(f, FragmentType(f.recycle, begin, n == |left|), left[..n])
               + if n == |left| then [] else Fragments(f, BlockEnd(q), left[n..], false)
  {
    hide Physical;
  }

  lemma TypeByte(f: Format, t: Byte, payload: Bytes)
    requires |payload| <= 0xffff
    ensures Physical(f, t, payload)[6] == t
  {
    hide Value, Mask, EncodeFixed32;
  }
}
