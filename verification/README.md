# Belenios voter credentials in Dafny

A model of the credential core of a Rust reimplementation of Belenios
(`src/datatypes/credentials.rs`). It covers three things:

- the Base58 voter password, whose last character is a check digit modulo 53
  over the other 21 characters (section 4.7 of the Belenios specification, with
  22-character strings instead of Belenios' 15);
- the public election UUID, which is a Base58 value with no checksum;
- the credential, which pairs a password with a UUID, and its expansion into a
  keypair. The secret key is PBKDF2 salted with the UUID and keyed with the
  password, reduced modulo the group order. The public key is the generator
  times the secret key.

Modules:

- `Base58` (`base58.dfy`): the length `N = 22` and the two lookup tables. The
  tables are `LOOKUPTABLE` (digit to symbol byte) and `INV_LOOKUPTABLE` (byte to
  digit). Their contents are defined outside this model, so they are a
  parameter `Tables`. The predicate `Valid` requires that the two tables form a
  bijection between the digits `[0, 58)` and 58 ASCII bytes. `WellFormed` is the
  Base58 value invariant: 22 bytes, all of them alphabet symbols.
- `ModArith` (`modarith.dfy`): powers, plus the residue facts modulo 53 that the
  checksum proofs use. The key fact is that 58 is invertible modulo 53, with
  inverse 32.
- `Passwords` (`passwords.dfy`): the checksum, insertion, validation and
  password generation. The checksum loop also appears as a method over newtypes
  `u128`, `isize` (64-bit) and `u8`. That method verifies only because none of
  its operations overflows.
- `Credentials` (`credentials.dfy`): `Uuid`, `Credential` and
  `ExpandedCredential`, plus the conversions between them. PBKDF2, scalar
  reduction, the generator and point multiplication are fields of a
  `Primitives` value. Every result therefore holds whichever deterministic
  functions those are.

The reference definition for the checksum is `WeightedSum`. It is the unreduced
number `Σ 58^i · d_i`, where `d_0` is the digit at index 20 and `i` grows toward
index 0. The code itself reduces each term modulo 53 before adding it (`Check`).

Two details of the code:

- `checksum` computes 58^idx in full as a u128 and reduces each term modulo 53;
  it does not keep 58^i mod 53 as it goes. `ComputeChecksum` proves that this
  never overflows.
- `validate_checksum` compares the last byte with the checksum's symbol.
  `ValidateChecksum` proves this is the same as comparing digits when the
  tables form a bijection.

## Model

| member | source | states |
|---|---|---|
| Base58.Symbol | src/datatypes/credentials.rs:71 | the symbol `LOOKUPTABLE` gives a digit below 58 is an alphabet byte |
| Base58.Digit | src/datatypes/credentials.rs:61 | the inverse table maps each alphabet byte to a digit below 58 whose forward symbol is that byte |
| Base58.DigitOfSymbol | src/datatypes/credentials.rs:71 | the digit read back from a digit's symbol is that digit |
| Base58.SymbolInjective | src/datatypes/credentials.rs:75 | two alphabet bytes have equal digits if and only if they are equal bytes |
| Passwords.DigitAt | src/datatypes/credentials.rs:48-61 | loop step idx reads, through `INV_LOOKUPTABLE`, a digit below 58; which character it reads is stated by `DigitAtReadsReversed` |
| Passwords.ReversedIndex | src/datatypes/credentials.rs:54 | reading a sequence backwards puts the character at index length - 1 - i at position i |
| Passwords.DigitAtReadsReversed | src/datatypes/credentials.rs:48-55 | loop step idx reads the character at position idx of the first 21 characters taken in reverse (`take(N - 1).rev().enumerate()`), so step 0 reads index 20 and step 20 reads index 0 |
| Passwords.Check | src/datatypes/credentials.rs:47-63 | after k loop steps the accumulator is at most 52·k, so it is at most 21·52 = 1092 at the end |
| Passwords.CheckCongruent | src/datatypes/credentials.rs:53-63 | reducing each term modulo 53 before adding leaves the sum congruent to the unreduced weighted sum |
| Passwords.Checksum | src/datatypes/credentials.rs:46-65 | the checksum is below 53, and adding it to the weighted sum of the first 21 characters, read in reverse, gives a multiple of 53 |
| Passwords.LargestTermFitsU128 | src/datatypes/credentials.rs:61 | the largest term, 58^20 · 57, is below 2^128 |
| Passwords.TermFitsU128 | src/datatypes/credentials.rs:61-62 | every power 58^idx and every term 58^idx · digit formed by the loop fits in a u128 |
| Passwords.AddTerm | src/datatypes/credentials.rs:61-62 | one loop iteration over u128 never overflows and advances the accumulator by the reduced term of that step |
| Passwords.ComputeChecksum | src/datatypes/credentials.rs:46-65 | the loop over u128/isize/u8 never overflows and returns the checksum, a value below 53 |
| Passwords.InsertChecksum | src/datatypes/credentials.rs:66-72 | the result is still a well-formed Base58 value; characters 0..20 are unchanged; the last character decodes to the checksum |
| Passwords.ValidateChecksum | src/datatypes/credentials.rs:73-76 | the byte comparison holds if and only if the last digit equals the checksum, if and only if the last digit is below 53 and the weighted sum plus that digit is a multiple of 53 |
| Passwords.CheckAgrees | src/datatypes/credentials.rs:48-55 | two values that agree on their first 21 characters have the same accumulator at every step |
| Passwords.ChecksumIgnoresLast | src/datatypes/credentials.rs:48-55 | the final character never affects the checksum |
| Passwords.InsertThenValidate | src/datatypes/credentials.rs:68-76 | a password with its checksum inserted always validates |
| Passwords.InsertFixesValid | src/datatypes/credentials.rs:68-76 | inserting the checksum leaves a password unchanged if and only if it already validates |
| Passwords.Gen | src/datatypes/credentials.rs:41-45 | a generated password is well formed, keeps the random characters 0..20, and validates |
| Passwords.WeightedSumUpdate | src/datatypes/credentials.rs:53-62 | replacing character i < 21 changes the weighted sum by 58^(20-i) times the change of its digit |
| Passwords.SingleSubstitution | src/datatypes/credentials.rs:61-64 | for a valid password with one of its first 21 characters replaced by an alphabet symbol, the result still validates if and only if the digit changes by a multiple of 53 |
| Passwords.UndetectedSubstitutions | src/datatypes/credentials.rs:61-64 | the same substitution goes undetected exactly when the symbol is unchanged or its digit moves by exactly 53 up or down |
| Passwords.LastSubstitutionDetected | src/datatypes/credentials.rs:75 | replacing the check character of a valid password by any other symbol makes it invalid |
| Credentials.UuidGen | src/datatypes/credentials.rs:23-29 | a UUID wraps the generated Base58 value as it is, with no checksum step |
| Credentials.FromPair | src/datatypes/credentials.rs:95-102 | the credential built from a pair holds exactly that password and UUID |
| Credentials.FromPairRoundTrip | src/datatypes/credentials.rs:95-102 | every credential is rebuilt exactly from its own password and UUID |
| Credentials.CredentialGen | src/datatypes/credentials.rs:86-93 | a generated credential keeps the given UUID; its password is the generated password built from the random draw, keeping the draw's first 21 characters, and it is well formed and validates, which is what the test at lines 153-162 asserts |
| Credentials.Expand | src/datatypes/credentials.rs:118-138 | expansion keeps the password and UUID. The secret key is the reduced PBKDF2 output, with the UUID as salt, the password as secret and 1000 iterations. The public key is generator · secret key |
| Credentials.Downcast | src/datatypes/credentials.rs:140-147 | the downcast keeps the password and UUID |
| Credentials.ExpandedGen | src/datatypes/credentials.rs:112-116 | a generated expanded credential keeps the UUID, carries the password generated from the random draw (its first 21 characters kept), which validates, and has consistent keys |
| Credentials.DowncastExpand | src/datatypes/credentials.rs:118-147 | downcasting an expansion gives back the original credential |
| Credentials.ExpandDowncast | src/datatypes/credentials.rs:118-147 | re-expanding the downcast of an expanded credential gives it back if and only if its keys are the ones its password and UUID determine |

## Left out

- Randomness and locking: `Base58::gen` and the shared random source behind a mutex are I/O and concurrency. A generated Base58 value is an arbitrary well-formed input (`raw`), and a failing random source is not modelled.
- The contents of `LOOKUPTABLE` and `INV_LOOKUPTABLE`: they are defined in `src/datatypes/base58.rs`, which is not part of this model. Only the bijection (plus ASCII) is assumed. `INV_LOOKUPTABLE` on non-alphabet bytes is not modelled.
- Base58 values that break the length/alphabet invariant, for example ones produced by deserialising arbitrary strings. Every password operation requires `WellFormed`. On shorter strings the source's index at line 75 would panic.
- PBKDF2-HMAC-SHA256 (section 5.2 of RFC 8018, HMAC per RFC 2104), `Scalar::from_bytes_mod_order`, `Point::generator` and point multiplication. They are foreign library code and appear only as fields of `Primitives`. Because expansion is a function, the same credential always gives the same keys.
- Serde serialisation and the unused `Voter_ID` import.
- The width of `isize` depends on the platform. The model takes 64 bits. The accumulator is at most 1092, so any width of 16 bits or more behaves the same.
