/** Powers and the facts about residues modulo 53 that the checksum relies on. */
module ModArith {
  import opened Base58

  /** The checksum modulus. */
  const M: nat := 53

  function Pow(b: nat, e: nat): nat
  {
    if e == 0 then 1 else b * Pow(b, e - 1)
  }

  lemma {:induction false} PowAdd(b: nat, e1: nat, e2: nat)
    ensures Pow(b, e1 + e2) == Pow(b, e1) * Pow(b, e2)
  {
    if e1 > 0 {
      PowAdd(b, e1 - 1, e2);
      assert Pow(b, e1 + e2) == b * Pow(b, e1 - 1 + e2);
    }
  }

  lemma {:induction false} PowMonotone(b: nat, e1: nat, e2: nat)
    requires b > 0 && e1 <= e2
    ensures Pow(b, e1) <= Pow(b, e2)
  {
    if e1 < e2 {
      PowMonotone(b, e1, e2 - 1);
      MulMonotone(1, b, Pow(b, e2 - 1));
    }
  }

  /** The product of two numbers with residue 1 has residue 1. */
  lemma ProductOfOnes(a: int, b: int)
    requires a % M == 1 && b % M == 1
    ensures (a * b) % M == 1
  {
    var qa, qb := a / M, b / M;
    assert a == M * qa + 1;
    assert b == M * qb + 1;
    assert a * b == M * (qa * b) + b by {
      Distribute(b, 1, M * qa + 1);
    }
    assert a * b == M * (qa * b + qb) + 1;
  }

  lemma Regroup(x: int, y: int)
    ensures (Radix * x) * (32 * y) == 1856 * (x * y)
  {
  }

  /** 32 is the inverse of 58 modulo 53 (58 * 32 = 1856 = 35 * 53 + 1), so
      every power of 58 is invertible modulo 53. */
  lemma {:induction false} PowInverse(e: nat)
    ensures (Pow(Radix, e) * Pow(32, e)) % M == 1
  {
    if e > 0 {
      PowInverse(e - 1);
      var x, y := Pow(Radix, e - 1), Pow(32, e - 1);
      Regroup(x, y);
      ProductOfOnes(1856, x * y);
    }
  }

  /** Two values below 53 that complete the same number to a multiple of 53
      are equal. */
  lemma UniqueComplement(c: int, d: int, w: int)
    requires 0 <= c < M && (c + w) % M == 0
    ensures 0 <= d < M && (d + w) % M == 0 ==> c == d
  {
    if 0 <= d < M && (d + w) % M == 0 {
      var qc, qd := (c + w) / M, (d + w) / M;
      assert c + w == M * qc;
      assert d + w == M * qd;
      assert c - d == M * (qc - qd);
    }
  }

  /** A multiple of 53 leaves residue 0. */
  lemma MultipleResidue(k: int)
    ensures (M * k) % M == 0
  {
  }

  /** If `p` is invertible modulo 53, then `p * x` is divisible by 53 only when
      `x` is. */
  lemma InvertibleCancel(p: int, u: int, x: int)
    requires (p * u) % M == 1
    requires (p * x) % M == 0
    ensures x % M == 0
  {
    var n := (p * x) / M;
    var m := (p * u) / M;
    assert p * x == M * n;
    assert p * u == M * m + 1;
    assert x == (p * u) * x - (M * m) * x;
    assert (p * u) * x == u * (p * x);
    assert u * (p * x) == M * (u * n);
    assert (M * m) * x == M * (m * x);
    assert x == M * (u * n - m * x);
    MultipleResidue(u * n - m * x);
  }

  /** Multiplying by a power of 58 neither creates nor destroys divisibility
      by 53. */
  lemma PowCancel(e: nat, x: int)
    ensures (Pow(Radix, e) * x) % M == 0 <==> x % M == 0
  {
    var p := Pow(Radix, e);
    if x % M == 0 {
      var k := x / M;
      assert p * x == M * (p * k);
      MultipleResidue(p * k);
    }
    if (p * x) % M == 0 {
      PowInverse(e);
      InvertibleCancel(p, Pow(32, e), x);
    }
  }

  /** Replacing a summand by one with the same residue, and reducing the other
      summand first, leaves the residue of the sum unchanged. */
  lemma ResidueSum(a: int, a': int, b: int)
    requires a % M == a' % M
    ensures (a + b % M) % M == (a' + b) % M
  {
    var qa, qa', qb := a / M, a' / M, b / M;
    assert a == M * qa + a % M;
    assert a' == M * qa' + a' % M;
    assert b == M * qb + b % M;
  }

  /** The complement (53 - x) mod 53 cancels anything congruent to x. */
  lemma ComplementCancels(x: int, w: int)
    requires x % M == w % M
    ensures ((M - x) % M + w) % M == 0
  {
    var qx, qw, qc := x / M, w / M, (M - x) / M;
    assert x == M * qx + x % M;
    assert w == M * qw + w % M;
    assert M - x == M * qc + (M - x) % M;
  }

  lemma MulMonotone(a: nat, b: nat, c: nat)
    requires a <= b
    ensures a * c <= b * c
  {
  }

  lemma Distribute(p: int, a: int, b: int)
    ensures p * b == p * a + p * (b - a)
  {
  }

  /** Adding to a multiple of 53 keeps it a multiple exactly when the addend
      is one. */
  lemma AddToMultiple(a: int, x: int)
    requires a % M == 0
    ensures (a + x) % M == 0 <==> x % M == 0
  {
    var q := a / M;
    assert a == M * q;
  }

  /** Two base-58 digits are congruent modulo 53 only when equal or exactly 53
      apart. */
  lemma SmallDifference(x: int, y: int)
    requires 0 <= x < Radix && 0 <= y < Radix
    ensures (x - y) % M == 0 <==> x == y || x == y + M || x + M == y
  {
  }
}
