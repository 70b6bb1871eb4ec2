/**
 The division that defines the checksum (section 12.1 of RFC 3720, rutil/crc32c.cc) is division:
 every polynomial over GF(2) is uniquely a multiple of the CRC32C polynomial plus a polynomial of
 degree below 32, and that is its remainder. Polynomials are written highest coefficient first.
 */
module CrcResidue {
  import opened Coding
  import opened Crc32c

  // The CRC32C polynomial 0x11EDC6F41 with its leading coefficient.
  const GENERATOR: Bits := [true] + POLY

  function Scale(bit: bool, g: Bits): (r: Bits)
    ensures |r| == |g| && forall i :: 0 <= i < |g| ==> r[i] == (bit && g[i])
  {
    seq(|g|, i requires 0 <= i < |g| => bit && g[i])
  }

  // The product of two polynomials.
  function Times(q: Bits, g: Bits): (r: Bits)
    requires g != []
    ensures |r| == |q| + |g| - 1
  {
    if q == [] then Zeros(|g| - 1)
    else Xor(Scale(q[0], g) + Zeros(|q| - 1), [false] + Times(q[1..], g))
  }

  // w = q * GENERATOR + r.
  ghost predicate Divides(w: Bits, q: Bits, r: Register) {
    |w| == |q| + 32 && w == Xor(Times(q, GENERATOR), Zeros(|q|) + r)
  }

  // What is left of w when its leading coefficient has been cancelled.
  function Cancelled(w: Bits): (r: Bits)
    requires |w| > 32
    ensures |r| == |w| - 1
  {
    if w[0] then Xor(w[1..33], POLY) + w[33..] else w[1..]
  }

  // q * GENERATOR + r, and the same without the leading term of q.
  function Sum(q: Bits, r: Register): (w: Bits)
    ensures |w| == |q| + 32
  {
    Xor(Times(q, GENERATOR), Zeros(|q|) + r)
  }

  lemma SumStep(q: Bits, r: Register)
    requires q != []
    ensures var lead := Scale(q[0], GENERATOR) + Zeros(|q| - 1);
            forall i :: 0 <= i < |q| + 32 ==> Sum(q, r)[i] == (lead[i] != (i > 0 && Sum(q[1..], r)[i - 1]))
  {
    hide Scale, Times, Sum;
    var rest := q[1..];
    var lead := Scale(q[0], GENERATOR) + Zeros(|q| - 1);
    forall i | 0 <= i < |q| + 32
      ensures Sum(q, r)[i] == (lead[i] != (i > 0 && Sum(rest, r)[i - 1]))
    {
      SumAt(q, r, i);
      TimesAt(q, GENERATOR, i);
      if i > 0 {
        SumAt(rest, r, i - 1);
      }
    }
  }

  // The coefficients of a sum and of a product.
  lemma SumAt(q: Bits, r: Register, i: nat)
    requires i < |q| + 32
    ensures Sum(q, r)[i] == (Times(q, GENERATOR)[i] != (i >= |q| && r[i - |q|]))
  {
    hide Times;
  }

  lemma TimesAt(q: Bits, g: Bits, i: nat)
    requires q != [] && g != [] && i < |q| + |g| - 1
    ensures var lead := Scale(q[0], g) + Zeros(|q| - 1);
            Times(q, g)[i] == (lead[i] != (i > 0 && Times(q[1..], g)[i - 1]))
  {
    hide Scale;
  }

  // One step of the division, in both directions.
  lemma OneStep(w: Bits, q: Bits, r: Register)
    requires |w| > 32 && |w| == |q| + 32
    ensures Divides(w, q, r) <==> q[0] == w[0] && Divides(Cancelled(w), q[1..], r)
  {
    hide Scale, Times, Cancelled, Sum;
    assert Divides(w, q, r) <==> w == Sum(q, r) by { DividesIsSum(w, q, r); }
    assert Divides(Cancelled(w), q[1..], r) <==>
      Cancelled(w) == Sum(q[1..], r) by { DividesIsSum(Cancelled(w), q[1..], r); }
    var lead := Scale(q[0], GENERATOR) + Zeros(|q| - 1);
    SumStep(q, r);
    Lead(w, q[0], |q| - 1);
    assert Sum(q, r)[0] == q[0];
    if q[0] == w[0] {
      SameStep(w, Sum(q, r), Cancelled(w), Sum(q[1..], r), lead);
    }
  }

  lemma DividesIsSum(w: Bits, q: Bits, r: Register)
    requires |w| == |q| + 32
    ensures Divides(w, q, r) <==> w == Sum(q, r)
  {
  }

  lemma SameStep(w: Bits, sum: Bits, c: Bits, less: Bits, lead: Bits)
    requires |w| == |sum| == |lead| == |c| + 1 == |less| + 1 && w[0] == sum[0]
    requires forall i :: 0 <= i < |c| ==> c[i] == (w[i + 1] != lead[i + 1])
    requires forall i :: 0 <= i < |sum| ==> sum[i] == (lead[i] != (i > 0 && less[i - 1]))
    ensures w == sum <==> c == less
  {
    if w == sum {
      forall i | 0 <= i < |c|
        ensures c[i] == less[i]
      {
        assert sum[i + 1] == (lead[i + 1] != less[i]);
      }
    }
    if c == less {
      forall i | 0 <= i < |w|
        ensures w[i] == sum[i]
      {
        assert i > 0 ==> c[i - 1] == (w[i - 1 + 1] != lead[i - 1 + 1]);
      }
    }
  }

  lemma Lead(w: Bits, bit: bool, n: nat)
    requires |w| == n + 33
    ensures var lead := Scale(bit, GENERATOR) + Zeros(n);
            && lead[0] == bit
            && (bit == w[0] ==> forall i :: 0 <= i < |w| - 1 ==> Cancelled(w)[i] == (w[i + 1] != lead[i + 1]))
  {
    var lead := Scale(bit, GENERATOR) + Zeros(n);
    var c := Cancelled(w);
    if bit == w[0] {
      forall i | 0 <= i < |w| - 1
        ensures c[i] == (w[i + 1] != lead[i + 1])
      {
        if i < 32 {
          assert lead[i + 1] == (bit && POLY[i]);
        }
      }
    }
  }

  // The remainder is the only polynomial of degree below 32 that differs from w by a multiple of the
  // generator.
  lemma {:induction false} RemainderIsUnique(w: Bits, q: Bits, r: Register)
    requires Divides(w, q, r)
    ensures r == Remainder(w)
    decreases |w|
  {
    hide Divides;
    Lengths(w, q, r);
    if |w| == 32 {
      NoQuotient(w, q, r);
    } else {
      OneStep(w, q, r);
      RemainderIsUnique(Cancelled(w), q[1..], r);
    }
  }

  lemma Lengths(w: Bits, q: Bits, r: Register)
    requires Divides(w, q, r)
    ensures |w| == |q| + 32
  {
  }

  lemma NoQuotient(w: Bits, q: Bits, r: Register)
    requires |w| == 32 && |q| == 0
    ensures Divides(w, q, r) <==> r == w
  {
    var z := Zeros(0) + r;
    assert z == r;
    assert Xor(Times(q, GENERATOR), z) == r;
  }

  // And it is one.
  lemma {:induction false} RemainderExists(w: Bits) returns (q: Bits)
    requires |w| >= 32
    ensures Divides(w, q, Remainder(w))
    decreases |w|
  {
    hide Divides;
    if |w| == 32 {
      q := [];
      NoQuotient(w, q, w);
    } else {
      var rest := RemainderExists(Cancelled(w));
      Lengths(Cancelled(w), rest, Remainder(w));
      q := [w[0]] + rest;
      assert q[1..] == rest;
      OneStep(w, q, Remainder(w));
    }
  }

  // The message followed by 32 zero bits, with the register added to its first 32 coefficients.
  function Window(s: Register, data: Bytes): Bits {
    var m := MessageBits(data) + Zeros(32);
    Xor(s, m[..32]) + m[32..]
  }

  // The checksum is the residue of the message polynomial modulo the generator: the one polynomial of
  // degree below 32 that differs from it by a multiple of the generator.
  lemma ChecksumIsResidue(crc: Word, data: Bytes, r: Register)
    ensures r == FoldBits(State(crc), MessageBits(data)) <==> exists q :: Divides(Window(State(crc), data), q, r)
    ensures Extend(crc, data) == Finish(FoldBits(State(crc), MessageBits(data)))
  {
    hide Divides, Finish;
    var s := State(crc);
    var w := Window(s, data);
    ExtendIsPolynomialRemainder(crc, data);
    FoldBitsIsRemainder(s, MessageBits(data));
    var p := RemainderExists(w);
    if q :| Divides(w, q, r) {
      RemainderIsUnique(w, q, r);
    }
  }
}
