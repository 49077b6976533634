/** RSASSA-PKCS1-v1_5 over SHA-256 (RFC 8017, sections 8.2 and 9.2), and why its signatures verify. */
module Signing {
  import opened Modular
  import opened Octets
  import opened Wrappers

  datatype Error = KeyTooSmall

  type Digest = d: seq<byte> | |d| == 32 witness seq(32, _ => 0)

  /** The DER prefix of a SHA-256 DigestInfo. */
  const DIGEST_INFO_PREFIX: seq<byte> :=
    [0x30, 0x31, 0x30, 0x0d, 0x06, 0x09, 0x60, 0x86, 0x48, 0x01, 0x65, 0x03, 0x04, 0x02, 0x01, 0x05, 0x00, 0x04, 0x20]

  function Padding(n: nat): (b: seq<byte>)
    ensures |b| == n
  {
    seq(n, _ => 0xff)
  }

  /** EMSA-PKCS1-v1_5: `00 01 FF .. FF 00 DigestInfo`. */
  function Encode(sha256: seq<byte> -> Digest, message: seq<byte>, keyBytes: nat): Result<seq<byte>, Error> {
    var digestInfo := DIGEST_INFO_PREFIX + sha256(message);
    if keyBytes < |digestInfo| + 3 + 8 then Err(KeyTooSmall)
    else Ok([0x00, 0x01] + Padding(keyBytes - |digestInfo| - 3) + [0x00] + digestInfo)
  }

  /** The encoded message fills the key length and, by its leading zero octet, is below the modulus. */
  lemma EncodeFits(sha256: seq<byte> -> Digest, message: seq<byte>, n: nat)
    requires n > 0 && Encode(sha256, message, KeyBytes(n)).Ok?
    ensures var em := Encode(sha256, message, KeyBytes(n)).value; |em| == KeyBytes(n) && FromBytes(em) < n
  {
    var em := Encode(sha256, message, KeyBytes(n)).value;
    assert em == [0x00] + em[1..];
    FromBytesLeadingZero(em[1..]);
    FromBytesBound(em[1..]);
    KeyBytesBounds(n);
  }

  lemma EncodeNeedsSpace(sha256: seq<byte> -> Digest, message: seq<byte>, keyBytes: nat)
    ensures Encode(sha256, message, keyBytes).Ok? <==> keyBytes >= 62
  {
  }

  /** `rs256_signature` on the numbers of a key.  The conversion back to octets never overflows. */
  function Sign(sha256: seq<byte> -> Digest, n: nat, d: nat, message: seq<byte>): (r: Result<seq<byte>, Error>)
    ensures r.Ok? ==> n > 0 && |r.value| == KeyBytes(n)
  {
    var em := Encode(sha256, message, KeyBytes(n));
    if em.Err? then em
    else
      assert n > 0;
      KeyBytesBounds(n);
      Ok(ToBytes(Pow(FromBytes(em.value), d) % n, KeyBytes(n)))
  }

  /** RSASSA-PKCS1-V1_5-VERIFY, section 8.2.2 of RFC 8017. */
  predicate Verifies(sha256: seq<byte> -> Digest, n: nat, e: nat, message: seq<byte>, signature: seq<byte>)
    requires n > 0
  {
    KeyBytesBounds(n);
    && |signature| == KeyBytes(n)
    && FromBytes(signature) < n
    && Encode(sha256, message, KeyBytes(n)) == Ok(ToBytes(Pow(FromBytes(signature), e) % n, KeyBytes(n)))
  }

  /** The numbers form an RSA key pair: section 3 of RFC 8017 for two primes. */
  ghost predicate KeyPair(n: nat, e: nat, d: nat, p: nat, q: nat) {
    && Prime(p) && Prime(q) && p != q && n == p * q
    && Congruent(e * d, 1, p - 1) && Congruent(e * d, 1, q - 1)
  }

  lemma ExponentsAtLeastOne(n: nat, e: nat, d: nat, p: nat, q: nat)
    requires KeyPair(n, e, d, p, q)
    ensures e * d >= 1
  {
    if e * d == 0 {
      var big := if p > q then p else q;
      var k := Quotient(big - 1, e * d - 1);
      NotMinusOne(big - 1, k);
    }
  }

  lemma NotMinusOne(a: int, k: int)
    requires a >= 2
    ensures a * k != -1
  {
    if k < 0 {
      assert a * (-k) == -(a * k);
      MulAtLeast(a, -k);
    }
  }

  /** Modulo each prime, encryption undoes decryption. */
  lemma UndoneModPrime(m: nat, ed: nat, p: nat)
    requires Prime(p) && ed >= 1 && Congruent(ed, 1, p - 1)
    ensures Congruent(Pow(m, ed), m, p)
  {
    var t := Quotient(p - 1, ed - 1);
    if t < 0 {
      assert (p - 1) * (-t) == -((p - 1) * t);
      MulAtLeast(p - 1, -t);
    }
    FermatTower(m, p, t);
    assert ed == 1 + t * (p - 1) by { assert (p - 1) * t == t * (p - 1); }
  }

  /** RSA is correct: raising to d and then to e modulo n gives the number back, coprime to n or not. */
  lemma RsaCorrect(m: nat, n: nat, e: nat, d: nat, p: nat, q: nat)
    requires KeyPair(n, e, d, p, q) && m < n
    ensures n > 0 && Pow(Pow(m, d) % n, e) % n == m
  {
    ExponentsAtLeastOne(n, e, d, p, q);
    UndoneModPrime(m, e * d, p);
    UndoneModPrime(m, e * d, q);
    PrimesTogether(p, q, Pow(m, e * d) - m);
    assert Congruent(Pow(m, e * d), m, n);
    var s := Pow(m, d) % n;
    ModCongruent(Pow(m, d), n);
    PowCongruent(s, Pow(m, d), e, n);
    PowMul(m, d, e);
    assert d * e == e * d;
    ModCongruent(Pow(s, e), n);
    CongruentTrans(Pow(s, e) % n, Pow(s, e), Pow(m, e * d), n);
    CongruentTrans(Pow(s, e) % n, Pow(m, e * d), m, n);
    CongruentInRange(Pow(s, e) % n, m, n);
  }

  /** Every signature verifies, and a signature is made exactly for keys of at least 62 octets. */
  lemma SignatureVerifies(sha256: seq<byte> -> Digest, n: nat, e: nat, d: nat, p: nat, q: nat, message: seq<byte>)
    requires KeyPair(n, e, d, p, q)
    ensures n > 0 && (Sign(sha256, n, d, message).Ok? <==> KeyBytes(n) >= 62)
    ensures Sign(sha256, n, d, message).Ok? ==> Verifies(sha256, n, e, message, Sign(sha256, n, d, message).value)
  {
    assert n > 0 by { MulAtLeast(p, q); }
    EncodeNeedsSpace(sha256, message, KeyBytes(n));
    if Sign(sha256, n, d, message).Ok? {
      var em := Encode(sha256, message, KeyBytes(n)).value;
      EncodeFits(sha256, message, n);
      KeyBytesBounds(n);
      var m := FromBytes(em);
      RsaCorrect(m, n, e, d, p, q);
      ToFromBytes(Pow(m, d) % n, KeyBytes(n));
      FromToBytes(em);
    }
  }
}
