/**
 Bytes, 32-bit words and the fixed-width little-endian coding of include/rocksutil/coding.h,
 together with the two-byte length that log record headers carry.
 */
module Coding {
  type Byte = x: int | 0 <= x < 0x100
  type Bytes = seq<Byte>
  type Word = x: int | 0 <= x < 0x1_0000_0000

  function Min(a: nat, b: nat): nat {
    if a < b then a else b
  }

  function Max(a: nat, b: nat): nat {
    if a < b then b else a
  }

  function ZeroBytes(k: nat): (r: Bytes)
    ensures |r| == k && forall i :: 0 <= i < k ==> r[i] == 0
  {
    seq(k, _ => 0)
  }

  function Pow2(k: nat): (r: nat)
    ensures r > 0
  {
    if k == 0 then 1 else 2 * Pow2(k - 1)
  }

  function EncodeFixed32(value: Word): (r: Bytes)
    ensures |r| == 4
  {
    [value % 0x100, value / 0x100 % 0x100, value / 0x100 / 0x100 % 0x100, value / 0x100 / 0x100 / 0x100]
  }

  function DecodeFixed32(p: Bytes): (r: Word)
    requires |p| >= 4
  {
    p[0] as int + 0x100 * (p[1] as int + 0x100 * (p[2] as int + 0x100 * p[3] as int))
  }

  lemma DecodePrefix(p: Bytes, q: Bytes)
    requires |p| >= 4 && |q| >= 4 && p[..4] == q[..4]
    ensures DecodeFixed32(p) == DecodeFixed32(q)
  {
    assert forall i :: 0 <= i < 4 ==> p[i] == p[..4][i] && q[i] == q[..4][i];
  }

  lemma Fixed32RoundTrip(value: Word)
    ensures DecodeFixed32(EncodeFixed32(value)) == value
  {
    var v1 := value / 0x100;
    assert v1 == v1 % 0x100 + 0x100 * (v1 / 0x100);
  }

  lemma Fixed32Injective(p: Bytes)
    requires |p| == 4
    ensures EncodeFixed32(DecodeFixed32(p)) == p
  {
    var v := DecodeFixed32(p);
    assert v / 0x100 == p[1] as int + 0x100 * (p[2] as int + 0x100 * p[3] as int);
    assert v / 0x100 / 0x100 == p[2] as int + 0x100 * p[3] as int;
  }

  function EncodeLength(n: nat): (r: Bytes)
    requires n <= 0xffff
    ensures |r| == 2
  {
    [n % 0x100, n / 0x100]
  }

  function DecodeLength(a: Byte, b: Byte): (r: nat)
    ensures r <= 0xffff
    ensures EncodeLength(r) == [a, b]
  {
    a as int + 0x100 * b as int
  }
}
