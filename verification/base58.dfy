/** The Base58 alphabet as the credential code sees it: a forward table from
    digit to symbol byte (`LOOKUPTABLE`) and an inverse table from symbol byte to
    digit (`INV_LOOKUPTABLE`).  The concrete tables live outside this model; every
    result here holds for any pair of tables that satisfies `Valid`. */
module Base58 {

  type byte = b: int | 0 <= b < 256

  /** Length of every Base58 value (`BASE58_STRLEN`). */
  const N: nat := 22

  /** Size of the alphabet. */
  const Radix: nat := 58

  /** `lookup` is `LOOKUPTABLE`; `inv` is `INV_LOOKUPTABLE`, indexed by a byte. */
  datatype Tables = Tables(lookup: seq<byte>, inv: seq<byte>)

  /** The tables form a bijection between the digits [0, 58) and the 58 alphabet
      bytes, and every alphabet byte is ASCII (so one character is one byte). */
  predicate Valid(t: Tables)
  {
    && |t.lookup| == Radix
    && (forall d :: 0 <= d < Radix ==> t.lookup[d] < 128)
    && (forall d :: 0 <= d < Radix ==> t.lookup[d] < |t.inv| && t.inv[t.lookup[d]] == d)
  }

  /** The byte is one of the 58 alphabet symbols. */
  predicate IsSymbol(t: Tables, c: byte)
  {
    c in t.lookup
  }

  /** The symbol of digit `d`. */
  function Symbol(t: Tables, d: nat): (c: byte)
    requires Valid(t) && d < Radix
    ensures IsSymbol(t, c)
  {
    t.lookup[d]
  }

  /** The digit of an alphabet byte, read through the inverse table. */
  function Digit(t: Tables, c: byte): (d: nat)
    requires Valid(t) && IsSymbol(t, c)
    ensures d < Radix
    ensures Symbol(t, d) == c
  {
    t.inv[c]
  }

  /** Reading a digit's symbol back through the inverse table gives the digit. */
  lemma DigitOfSymbol(t: Tables, d: nat)
    requires Valid(t) && d < Radix
    ensures Digit(t, Symbol(t, d)) == d
  {
  }

  /** Distinct digits have distinct symbols, and distinct symbols distinct digits. */
  lemma SymbolInjective(t: Tables, c: byte, c': byte)
    requires Valid(t) && IsSymbol(t, c) && IsSymbol(t, c')
    ensures Digit(t, c) == Digit(t, c') <==> c == c'
  {
    assert Symbol(t, Digit(t, c)) == c;
    assert Symbol(t, Digit(t, c')) == c';
  }

  /** A well-formed Base58 value: exactly N bytes, all of them alphabet symbols. */
  predicate WellFormed(t: Tables, s: seq<byte>)
  {
    |s| == N && forall i :: 0 <= i < |s| ==> IsSymbol(t, s[i])
  }
}
