/** Credentials: a password paired with the election's UUID, and its expansion
    into a keypair.  The key derivation (PBKDF2-HMAC-SHA256) and the group are
    foreign code; they enter as a `Primitives` value, so every result below
    holds for whatever deterministic functions they are. */
module Credentials {
  import opened Base58
  import opened Passwords

  /** Length of the PBKDF2 output buffer (`digest::SHA256_OUTPUT_LEN`). */
  const DigestLen: nat := 32

  /** PBKDF2 iteration count used for key expansion. */
  const Pbkdf2Iterations: nat := 1000

  type Digest = s: seq<byte> | |s| == DigestLen witness seq(DigestLen, _ => 0)

  /** The foreign primitives: `pbkdf2(iterations, salt, secret)` fills a 32-byte
      buffer; `fromBytesModOrder` reduces it to a scalar (it never fails);
      `mul(point, scalar)` is scalar multiplication. */
  datatype Primitives<!Scalar, !Point> = Primitives(
    pbkdf2: (nat, seq<byte>, seq<byte>) -> Digest,
    fromBytesModOrder: Digest -> Scalar,
    generator: Point,
    mul: (Point, Scalar) -> Point)

  /** The public Base58 identifier of an election; it carries no checksum. */
  datatype Uuid = Uuid(value: seq<byte>)

  datatype Credential = Credential(password: Password, uuid: Uuid)

  datatype ExpandedCredential<Scalar, Point> =
    ExpandedCredential(password: Password, uuid: Uuid, secretKey: Scalar, publicKey: Point)

  /** The secret key a (password, uuid) pair determines: PBKDF2 salted with the
      UUID's bytes and keyed with the password's bytes, reduced mod the order. */
  ghost function DerivedSecret<Scalar, Point>(prims: Primitives<Scalar, Point>, password: Password, uuid: Uuid): Scalar
  {
    prims.fromBytesModOrder(prims.pbkdf2(Pbkdf2Iterations, uuid.value, password.value))
  }

  /** An expanded credential whose keys are the ones its password and UUID
      determine, with the public key the generator times the secret key. */
  ghost predicate Consistent<Scalar, Point>(prims: Primitives<Scalar, Point>, e: ExpandedCredential<Scalar, Point>)
  {
    && e.secretKey == DerivedSecret(prims, e.password, e.uuid)
    && e.publicKey == prims.mul(prims.generator, e.secretKey)
  }

  /** UUID generation: a random well-formed Base58 value (an arbitrary input
      here), wrapped without any checksum step. */
  function UuidGen(t: Tables, raw: seq<byte>): (u: Uuid)
    requires Valid(t) && WellFormed(t, raw)
    ensures WellFormed(t, u.value) && u.value == raw
  {
    Uuid(raw)
  }

  /** Building a credential from a (password, uuid) pair keeps both parts. */
  function FromPair(password: Password, uuid: Uuid): (c: Credential)
    ensures c.password == password && c.uuid == uuid
  {
    Credential(password, uuid)
  }

  /** Credential generation: a freshly generated password, which always
      validates, paired with a copy of the given UUID. */
  function CredentialGen(t: Tables, raw: seq<byte>, uuid: Uuid): (c: Credential)
    requires Valid(t) && WellFormed(t, raw)
    ensures c.uuid == uuid
    ensures c.password == Passwords.Gen(t, raw)
    ensures c.password.value[..Covered] == raw[..Covered]
    ensures WellFormed(t, c.password.value) && ValidateChecksum(t, c.password)
  {
    Credential(Passwords.Gen(t, raw), uuid)
  }

  /** Key expansion: carries the password and UUID through unchanged and adds
      the keypair they determine. */
  function Expand<Scalar, Point>(prims: Primitives<Scalar, Point>, c: Credential): (e: ExpandedCredential<Scalar, Point>)
    ensures e.password == c.password && e.uuid == c.uuid
    ensures Consistent(prims, e)
  {
    var out := prims.pbkdf2(Pbkdf2Iterations, c.uuid.value, c.password.value);
    var secretKey := prims.fromBytesModOrder(out);
    var publicKey := prims.mul(prims.generator, secretKey);
    ExpandedCredential(c.password, c.uuid, secretKey, publicKey)
  }

  /** Dropping the keys of an expanded credential keeps its password and UUID. */
  function Downcast<Scalar, Point>(e: ExpandedCredential<Scalar, Point>): (c: Credential)
    ensures c.password == e.password && c.uuid == e.uuid
  {
    Credential(e.password, e.uuid)
  }

  /** Generating an expanded credential: generate a credential, then expand it. */
  function ExpandedGen<Scalar, Point>(prims: Primitives<Scalar, Point>, t: Tables, raw: seq<byte>, uuid: Uuid)
    : (e: ExpandedCredential<Scalar, Point>)
    requires Valid(t) && WellFormed(t, raw)
    ensures e.uuid == uuid
    ensures e.password == Passwords.Gen(t, raw)
    ensures e.password.value[..Covered] == raw[..Covered]
    ensures WellFormed(t, e.password.value) && ValidateChecksum(t, e.password)
    ensures Consistent(prims, e)
  {
    Expand(prims, CredentialGen(t, raw, uuid))
  }

  /** The downcast undoes the expansion. */
  lemma DowncastExpand<Scalar, Point>(prims: Primitives<Scalar, Point>, c: Credential)
    ensures Downcast(Expand(prims, c)) == c
  {
  }

  /** Re-expanding a downcast gives back the same expanded credential exactly
      when that credential was consistent. */
  lemma ExpandDowncast<Scalar, Point>(prims: Primitives<Scalar, Point>, e: ExpandedCredential<Scalar, Point>)
    ensures Expand(prims, Downcast(e)) == e <==> Consistent(prims, e)
  {
  }

  /** A credential is determined by its two parts. */
  lemma FromPairRoundTrip(c: Credential)
    ensures FromPair(c.password, c.uuid) == c
  {
  }
}
