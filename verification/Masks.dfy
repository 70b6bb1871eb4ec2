/**
 Powers of two, and the masks x & (n - 1) that the hash table (rutil/lru_cache.cc:60-92) and the
 aligned buffer (rutil/aligned_buffer.h:16-20, 88-102) compute with.
 */
module Masks {
  predicate PowerOfTwo(n: nat) {
    n == 1 || (n > 1 && n % 2 == 0 && PowerOfTwo(n / 2))
  }

  // x & (length - 1) for a power of two.
  function LowBits(x: nat, length: nat): (k: nat)
    requires PowerOfTwo(length)
    ensures k < length
    decreases length
  {
    if length == 1 then 0 else x % 2 + 2 * LowBits(x / 2, length / 2)
  }

  lemma {:induction false} LowBitsAreRemainder(x: nat, length: nat)
    requires PowerOfTwo(length)
    ensures LowBits(x, length) == x % length
    decreases length
  {
    if length > 1 {
      var m := length / 2;
      LowBitsAreRemainder(x / 2, m);
      DoubledRemainder(x / 2, m, x % 2);
    }
  }

  lemma DoubledRemainder(x: nat, m: nat, bit: nat)
    requires m > 0 && bit < 2
    ensures (2 * x + bit) % (2 * m) == bit + 2 * (x % m)
  {
    var q, r := x / m, x % m;
    DivMod(x, m, q, r);
    DoubleProduct(m, q);
    RemainderUnique(2 * x + bit, 2 * m, q, bit + 2 * r);
  }

  lemma DivMod(x: nat, m: nat, q: nat, r: nat)
    requires m > 0 && q == x / m && r == x % m
    ensures x == m * q + r && r < m
  {
  }

  lemma DoubleProduct(m: nat, q: nat)
    ensures (2 * m) * q == 2 * (m * q)
  {
  }

  lemma RemainderUnique(x: nat, n: nat, q: nat, r: nat)
    requires x == n * q + r && r < n
    ensures x % n == r
  {
    var p := x / n;
    assert p >= q + 1 ==> n * p >= n * (q + 1);
    assert p + 1 <= q ==> n * (p + 1) <= n * q;
  }

  // Of two powers of two, the smaller one divides the other.
  lemma {:induction false} PowersDivide(m: nat, n: nat)
    requires PowerOfTwo(m) && PowerOfTwo(n) && m <= n
    ensures n % m == 0
    decreases n
  {
    if m > 1 {
      PowersDivide(m / 2, n / 2);
      var a, b := m / 2, n / 2;
      var q := b / a;
      DivMod(b, a, q, 0);
      DoubleProduct(a, q);
      RemainderUnique(n, m, q, 0);
    }
  }
}
