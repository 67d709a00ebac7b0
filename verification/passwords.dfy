/** Voter passwords: a Base58 value whose final character is a check digit
    modulo 53 over the other N - 1 characters (section 4.7 of the Belenios
    specification, with N = 22 instead of Belenios' 15). */
module Passwords {
  import opened Base58
  import opened ModArith

  /** A secret Base58 value; it is only expected to carry a valid checksum. */
  datatype Password = Password(value: seq<byte>)

  /** The fixed-width integers of the checksum loop.  Arithmetic on these types
      is checked for overflow, as it would panic otherwise.  `isize` is taken
      to be 64 bits wide. */
  const U128Bound: int := 0x1_0000_0000_0000_0000_0000_0000_0000_0000

  newtype u128 = x: int | 0 <= x < U128Bound
  newtype isize = x: int | -0x8000_0000_0000_0000 <= x < 0x8000_0000_0000_0000
  newtype u8 = x: int | 0 <= x < 0x100

  /** Number of leading characters the checksum covers. */
  const Covered: nat := N - 1

  /** The digit read at loop step `idx`: the covered characters are visited from
      index N - 2 down to index 0, so step 0 is the least significant. */
  function DigitAt(t: Tables, s: seq<byte>, idx: nat): (d: nat)
    requires Valid(t) && WellFormed(t, s) && idx < Covered
    ensures d < Radix
  {
    Digit(t, s[N - 2 - idx])
  }

  /** Reference reading order: the sequence backwards. */
  function Reversed(s: seq<byte>): (r: seq<byte>)
    ensures |r| == |s|
  {
    if s == [] then [] else Reversed(s[1..]) + [s[0]]
  }

  lemma {:induction false} ReversedIndex(s: seq<byte>, i: nat)
    requires i < |s|
    ensures Reversed(s)[i] == s[|s| - 1 - i]
  {
    if i < |s| - 1 {
      ReversedIndex(s[1..], i);
    }
  }

  /** Loop step `idx` reads the `idx`-th character of the first N - 1
      characters taken in reverse, as `take(N - 1).rev().enumerate()` does. */
  lemma DigitAtReadsReversed(t: Tables, s: seq<byte>, idx: nat)
    requires Valid(t) && WellFormed(t, s) && idx < Covered
    ensures var r := Reversed(s[..Covered]);
      IsSymbol(t, r[idx]) && DigitAt(t, s, idx) == Digit(t, r[idx])
  {
    ReversedIndex(s[..Covered], idx);
  }

  /** The accumulated `check` after the first `k` loop steps.  Each term
      58^idx * d is reduced modulo 53 before it is added, so the accumulator
      never exceeds 52 per step. */
  function Check(t: Tables, s: seq<byte>, k: nat): (r: nat)
    requires Valid(t) && WellFormed(t, s) && k <= Covered
    ensures r <= 52 * k
  {
    if k == 0 then 0 else Check(t, s, k - 1) + (Pow(Radix, k - 1) * DigitAt(t, s, k - 1)) % M
  }

  /** Reference definition: the base-58 number the first `k` loop steps read,
      without any reduction. */
  function WeightedSum(t: Tables, s: seq<byte>, k: nat): nat
    requires Valid(t) && WellFormed(t, s) && k <= Covered
  {
    if k == 0 then 0 else WeightedSum(t, s, k - 1) + Pow(Radix, k - 1) * DigitAt(t, s, k - 1)
  }

  /** Reducing each term first does not change the sum modulo 53. */
  lemma {:induction false} CheckCongruent(t: Tables, s: seq<byte>, k: nat)
    requires Valid(t) && WellFormed(t, s) && k <= Covered
    ensures Check(t, s, k) % M == WeightedSum(t, s, k) % M
  {
    if k > 0 {
      CheckCongruent(t, s, k - 1);
      var term := Pow(Radix, k - 1) * DigitAt(t, s, k - 1);
      var c, w := Check(t, s, k - 1), WeightedSum(t, s, k - 1);
      ResidueSum(c, w, term);
    }
  }

  /** The check digit: the unique value below 53 that brings the weighted sum
      of the covered characters to a multiple of 53. */
  function Checksum(t: Tables, p: Password): (c: nat)
    requires Valid(t) && WellFormed(t, p.value)
    ensures c < M
    ensures (c + WeightedSum(t, p.value, Covered)) % M == 0
  {
    var check := Check(t, p.value, Covered);
    CheckCongruent(t, p.value, Covered);
    ComplementCancels(check, WeightedSum(t, p.value, Covered));
    (M - check) % M
  }

  /** The largest term the loop can form, 58^20 * 57, is below 2^128. */
  lemma LargestTermFitsU128()
    ensures Pow(Radix, Covered - 1) * (Radix - 1) < U128Bound
  {
    PowAdd(Radix, 10, 10);
    assert Pow(Radix, 10) == 430804206899405824;
  }

  /** One loop step adds the reduced term to the accumulator. */
  lemma CheckStep(t: Tables, s: seq<byte>, idx: nat)
    requires Valid(t) && WellFormed(t, s) && idx < Covered
    ensures Check(t, s, idx + 1) == Check(t, s, idx) + (Pow(Radix, idx) * DigitAt(t, s, idx)) % M
  {
  }

  /** Any term of the loop fits in a `u128`. */
  lemma TermFitsU128(idx: nat, d: nat)
    requires idx < Covered && d < Radix
    ensures Pow(Radix, idx) < U128Bound
    ensures Pow(Radix, idx) * d < U128Bound
  {
    LargestTermFitsU128();
    PowMonotone(Radix, idx, Covered - 1);
    MulMonotone(Pow(Radix, idx), Pow(Radix, Covered - 1), d);
    MulMonotone(d, Radix - 1, Pow(Radix, Covered - 1));
  }

  /** One iteration of the checksum loop over `u128`: the power, the product
      and the sum all stay in range, and the accumulator advances by one step. */
  method AddTerm(t: Tables, s: seq<byte>, idx: nat, check: u128) returns (check': u128)
    requires Valid(t) && WellFormed(t, s) && idx < Covered
    requires check as int == Check(t, s, idx)
    ensures check' as int == Check(t, s, idx + 1)
  {
    var charVal := s[N - 2 - idx];
    ghost var d := DigitAt(t, s, idx);
    assert charVal < |t.inv| && t.inv[charVal] == d by {
      assert IsSymbol(t, charVal);
    }
    TermFitsU128(idx, d);
    CheckStep(t, s, idx);
    var power := Pow(Radix, idx) as u128;
    var digit := t.inv[charVal] as u128;
    assert 0 <= (power as int) * (digit as int) < U128Bound by {
      assert power as int == Pow(Radix, idx) && digit as int == d;
      MulMonotone(0, Pow(Radix, idx), d);
    }
    var term := power * digit;
    assert term as int == Pow(Radix, idx) * d;
    check' := check + term % (M as u128);
  }

  /** The checksum loop over the source's fixed-width integers.  It verifies
      only because no `u128`, `isize` or `u8` operation overflows, and it
      computes exactly `Checksum`. */
  method ComputeChecksum(t: Tables, p: Password) returns (c: u8)
    requires Valid(t) && WellFormed(t, p.value)
    ensures c as int == Checksum(t, p)
    ensures c as int < M
  {
    var s := p.value;
    var check: u128 := 0;
    var idx: nat := 0;
    while idx < Covered
      invariant idx <= Covered
      invariant check as int == Check(t, s, idx)
    {
      check := AddTerm(t, s, idx, check);
      idx := idx + 1;
    }
    assert check as int <= 52 * Covered;
    var diff: isize := M as isize - check as isize;
    c := (diff % (M as isize)) as u8;
  }

  /** Overwrites the final character with the symbol of the check digit (the
      source pops the last character and pushes the new one). */
  function InsertChecksum(t: Tables, p: Password): (q: Password)
    requires Valid(t) && WellFormed(t, p.value)
    ensures WellFormed(t, q.value)
    ensures q.value[..Covered] == p.value[..Covered]
    ensures Digit(t, q.value[Covered]) == Checksum(t, p)
  {
    var check := Checksum(t, p);
    DigitOfSymbol(t, check);
    Password(p.value[..|p.value| - 1] + [Symbol(t, check)])
  }

  /** A password is valid when its last byte is the symbol of the check digit;
      equivalently, when the last digit is below 53 and completes the weighted
      sum of the whole password to a multiple of 53. */
  function ValidateChecksum(t: Tables, p: Password): (ok: bool)
    requires Valid(t) && WellFormed(t, p.value)
    ensures ok <==> Digit(t, p.value[Covered]) == Checksum(t, p)
    ensures ok <==>
      var last := Digit(t, p.value[Covered]);
      last < M && (last + WeightedSum(t, p.value, Covered)) % M == 0
  {
    var check := Checksum(t, p);
    DigitOfSymbol(t, check);
    SymbolInjective(t, p.value[Covered], Symbol(t, check));
    UniqueComplement(check, Digit(t, p.value[Covered]), WeightedSum(t, p.value, Covered));
    p.value[Covered] == Symbol(t, check)
  }

  /** The accumulated check only looks at the covered characters. */
  lemma {:induction false} CheckAgrees(t: Tables, s: seq<byte>, s': seq<byte>, k: nat)
    requires Valid(t) && WellFormed(t, s) && WellFormed(t, s') && k <= Covered
    requires s[..Covered] == s'[..Covered]
    ensures Check(t, s, k) == Check(t, s', k)
  {
    if k > 0 {
      CheckAgrees(t, s, s', k - 1);
      assert s[N - 2 - (k - 1)] == s[..Covered][N - 2 - (k - 1)];
    }
  }

  /** The final (check) character never influences the checksum. */
  lemma ChecksumIgnoresLast(t: Tables, p: Password, q: Password)
    requires Valid(t) && WellFormed(t, p.value) && WellFormed(t, q.value)
    requires p.value[..Covered] == q.value[..Covered]
    ensures Checksum(t, p) == Checksum(t, q)
  {
    CheckAgrees(t, p.value, q.value, Covered);
  }

  /** Inserting the checksum always yields a password that validates. */
  lemma InsertThenValidate(t: Tables, p: Password)
    requires Valid(t) && WellFormed(t, p.value)
    ensures ValidateChecksum(t, InsertChecksum(t, p))
  {
    ChecksumIgnoresLast(t, p, InsertChecksum(t, p));
  }

  /** Inserting the checksum leaves a password unchanged exactly when it
      already validates. */
  lemma InsertFixesValid(t: Tables, p: Password)
    requires Valid(t) && WellFormed(t, p.value)
    ensures InsertChecksum(t, p) == p <==> ValidateChecksum(t, p)
  {
    var q := InsertChecksum(t, p);
    ChecksumIgnoresLast(t, p, q);
    if ValidateChecksum(t, p) {
      SymbolInjective(t, q.value[Covered], p.value[Covered]);
      assert q.value == q.value[..Covered] + [q.value[Covered]];
      assert p.value == p.value[..Covered] + [p.value[Covered]];
    }
  }

  /** Password generation: a random well-formed Base58 value (an arbitrary
      input here) with its checksum inserted.  Every generated password
      validates. */
  function Gen(t: Tables, raw: seq<byte>): (p: Password)
    requires Valid(t) && WellFormed(t, raw)
    ensures WellFormed(t, p.value)
    ensures p.value[..Covered] == raw[..Covered]
    ensures ValidateChecksum(t, p)
  {
    InsertThenValidate(t, Password(raw));
    InsertChecksum(t, Password(raw))
  }

  /** Changing the covered character at index `i` changes the weighted sum by
      58^(N-2-i) times the change of its digit. */
  lemma {:induction false} WeightedSumUpdate(t: Tables, s: seq<byte>, i: nat, b: byte, k: nat)
    requires Valid(t) && WellFormed(t, s) && i < Covered && IsSymbol(t, b) && k <= Covered
    ensures WellFormed(t, s[i := b])
    ensures WeightedSum(t, s[i := b], k) ==
      WeightedSum(t, s, k) + (if N - 2 - i < k then Pow(Radix, N - 2 - i) * (Digit(t, b) - Digit(t, s[i])) else 0)
  {
    var s' := s[i := b];
    assert WellFormed(t, s');
    if k > 0 {
      WeightedSumUpdate(t, s, i, b, k - 1);
      var j := N - 2 - i;
      if k - 1 == j {
        var p := Pow(Radix, j);
        assert DigitAt(t, s', j) == Digit(t, b);
        assert DigitAt(t, s, j) == Digit(t, s[i]);
        Distribute(p, Digit(t, s[i]), Digit(t, b));
      } else {
        assert DigitAt(t, s', k - 1) == DigitAt(t, s, k - 1);
      }
    }
  }

  /** Replacing one covered character of a valid password by another symbol is
      caught exactly when the two digits differ by an amount not divisible by
      53. */
  lemma SingleSubstitution(t: Tables, p: Password, i: nat, b: byte)
    requires Valid(t) && WellFormed(t, p.value) && ValidateChecksum(t, p)
    requires i < Covered && IsSymbol(t, b)
    ensures WellFormed(t, p.value[i := b])
    ensures ValidateChecksum(t, Password(p.value[i := b])) <==> (Digit(t, b) - Digit(t, p.value[i])) % M == 0
  {
    var s := p.value;
    var s' := s[i := b];
    var j := N - 2 - i;
    var delta := Digit(t, b) - Digit(t, s[i]);
    var w := WeightedSum(t, s, Covered);
    var change := Pow(Radix, j) * delta;
    var w' := WeightedSum(t, s', Covered);
    assert w' == w + change by {
      WeightedSumUpdate(t, s, i, b, Covered);
    }
    var last := Digit(t, s[Covered]);
    assert last < M && (last + w) % M == 0;
    assert ValidateChecksum(t, Password(s')) <==> (last + w') % M == 0 by {
      assert s'[Covered] == s[Covered];
      assert WellFormed(t, s');
      assert Digit(t, s'[Covered]) == last;
    }
    assert (last + w') % M == 0 <==> delta % M == 0 by {
      AddToMultiple(last + w, change);
      PowCancel(j, delta);
    }
  }

  /** Since digits lie below 58, the only substitutions of a covered character
      that go undetected are those whose digits differ by exactly 53. */
  lemma UndetectedSubstitutions(t: Tables, p: Password, i: nat, b: byte)
    requires Valid(t) && WellFormed(t, p.value) && ValidateChecksum(t, p)
    requires i < Covered && IsSymbol(t, b)
    ensures WellFormed(t, p.value[i := b])
    ensures ValidateChecksum(t, Password(p.value[i := b])) <==>
      (b == p.value[i] || Digit(t, b) == Digit(t, p.value[i]) + M || Digit(t, b) + M == Digit(t, p.value[i]))
  {
    SingleSubstitution(t, p, i, b);
    SymbolInjective(t, b, p.value[i]);
    SmallDifference(Digit(t, b), Digit(t, p.value[i]));
  }

  /** Replacing the check character itself by any other symbol is always
      caught. */
  lemma LastSubstitutionDetected(t: Tables, p: Password, b: byte)
    requires Valid(t) && WellFormed(t, p.value) && ValidateChecksum(t, p)
    requires IsSymbol(t, b) && b != p.value[Covered]
    ensures WellFormed(t, p.value[Covered := b])
    ensures !ValidateChecksum(t, Password(p.value[Covered := b]))
  {
    var q := Password(p.value[Covered := b]);
    assert WellFormed(t, q.value);
    ChecksumIgnoresLast(t, p, q);
    SymbolInjective(t, b, p.value[Covered]);
  }
}
