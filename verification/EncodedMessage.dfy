/** What is signed, octet by octet (RFC 8017, section 9.2), and that a signature stands for one digest. */
module EncodedMessage {
  import opened Modular
  import opened Octets
  import opened Signing
  import opened Wrappers
  import Der

  // ---- the DigestInfo of SHA-256 ------------------------------------------------------------------------

  /** Seven bits to the octet, all but the last with the top bit set: X.690, section 8.19.2. */
  function Base128(n: nat): seq<byte> {
    if n < 128 then [n] else Continued(n / 128) + [n % 128]
  }

  function Continued(n: nat): seq<byte> {
    if n < 128 then [0x80 + n] else Continued(n / 128) + [0x80 + n % 128]
  }

  /** An object identifier: the first two arcs share an octet string. */
  function ObjectIdentifier(arcs: seq<nat>): seq<byte>
    requires |arcs| >= 2
  {
    Base128(40 * arcs[0] + arcs[1]) + Arcs(arcs[2..])
  }

  function Arcs(arcs: seq<nat>): seq<byte> {
    if arcs == [] then [] else Base128(arcs[0]) + Arcs(arcs[1..])
  }

  /** id-sha256, from the NIST arc for hash functions. */
  const SHA256_ARCS: seq<nat> := [2, 16, 840, 1, 101, 3, 4, 2, 1]

  lemma Sha256Identifier()
    ensures ObjectIdentifier(SHA256_ARCS) == [0x60, 0x86, 0x48, 0x01, 0x65, 0x03, 0x04, 0x02, 0x01]
  {
    assert Base128(840) == [0x86, 0x48];
    var rest: seq<nat> := [1, 101, 3, 4, 2, 1];
    ArcsFrom(1, 101, 3, 4, 2, 1);
    assert SHA256_ARCS[2..] == [840] + rest;
    ArcsStep(840, rest);
  }

  lemma ArcsStep(arc: nat, rest: seq<nat>)
    ensures Arcs([arc] + rest) == Base128(arc) + Arcs(rest)
  {
    assert ([arc] + rest)[1..] == rest;
  }

  lemma ArcsFrom(a: nat, b: nat, c: nat, d: nat, e: nat, f: nat)
    requires a < 128 && b < 128 && c < 128 && d < 128 && e < 128 && f < 128
    ensures Arcs([a, b, c, d, e, f]) == [a, b, c, d, e, f]
  {
    assert [a, b, c, d, e, f][1..] == [b, c, d, e, f] && [b, c, d, e, f][1..] == [c, d, e, f];
    assert [c, d, e, f][1..] == [d, e, f] && [d, e, f][1..] == [e, f] && [e, f][1..] == [f] && [f][1..] == [];
    assert Arcs([f]) == [f];
    assert Arcs([e, f]) == [e, f];
    assert Arcs([d, e, f]) == [d, e, f];
    assert Arcs([c, d, e, f]) == [c, d, e, f];
    assert Arcs([b, c, d, e, f]) == [b, c, d, e, f];
  }

  /** A short field as X.690 encodes it: tag, length, content. */
  lemma ShortField(tag: byte, content: seq<byte>)
    requires |content| < 128
    ensures Der.Encodable(|content|) && Der.Encode(Der.Tlv(tag, content)) == [tag, |content|] + content
  {
    assert Minimal(|content| / 256) == [];
  }

  function Field(tag: byte, content: seq<byte>): seq<byte>
    requires |content| < 128
  {
    ShortField(tag, content);
    Der.Encode(Der.Tlv(tag, content))
  }

  /** AlgorithmIdentifier: the identifier and NULL parameters. */
  function Algorithm(identifier: seq<byte>): seq<byte>
    requires |identifier| < 100
    ensures |Algorithm(identifier)| == |identifier| + 6
  {
    ShortField(0x06, identifier);
    ShortField(0x05, []);
    ShortField(0x30, Field(0x06, identifier) + Field(0x05, []));
    Field(0x30, Field(0x06, identifier) + Field(0x05, []))
  }

  /** DigestInfo: the algorithm and the digest as an octet string. */
  function DigestInfo(identifier: seq<byte>, digest: seq<byte>): seq<byte>
    requires |identifier| + |digest| < 100
  {
    ShortField(0x04, digest);
    Field(0x30, Algorithm(identifier) + Field(0x04, digest))
  }

  lemma Regroup(a: seq<byte>, b: seq<byte>, c: seq<byte>, d: seq<byte>)
    ensures a + (b + (c + d)) == a + b + c + d
  {
  }

  lemma AlgorithmOctets(identifier: seq<byte>)
    requires |identifier| == 9
    ensures Algorithm(identifier) == [0x30, 13] + [0x06, 9] + identifier + [0x05, 0]
  {
    ShortField(0x06, identifier);
    ShortField(0x05, []);
    assert Field(0x05, []) == [0x05, 0];
    ShortField(0x30, Field(0x06, identifier) + Field(0x05, []));
    Regroup([0x30, 13], [0x06, 9], identifier, [0x05, 0]);
    assert [0x06, 9] + identifier + [0x05, 0] == [0x06, 9] + (identifier + [0x05, 0]);
  }

  lemma DigestInfoOctets(identifier: seq<byte>, digest: Digest)
    requires |identifier| == 9
    ensures DigestInfo(identifier, digest) == [0x30, 49] + Algorithm(identifier) + [0x04, 32] + digest
  {
    ShortField(0x04, digest);
    ShortField(0x30, Algorithm(identifier) + Field(0x04, digest));
    Regroup([0x30, 49], Algorithm(identifier), [0x04, 32], digest);
  }

  /** The nineteen octets before the digest are those of DER. */
  lemma PrefixIsDer(digest: Digest)
    ensures DIGEST_INFO_PREFIX + digest == DigestInfo(ObjectIdentifier(SHA256_ARCS), digest)
  {
    Sha256Identifier();
    var identifier := ObjectIdentifier(SHA256_ARCS);
    AlgorithmOctets(identifier);
    DigestInfoOctets(identifier, digest);
    PrefixOctets(identifier);
  }

  lemma PrefixOctets(identifier: seq<byte>)
    requires identifier == [0x60, 0x86, 0x48, 0x01, 0x65, 0x03, 0x04, 0x02, 0x01]
    ensures [0x30, 49] + ([0x30, 13] + [0x06, 9] + identifier + [0x05, 0]) + [0x04, 32] == DIGEST_INFO_PREFIX
  {
  }

  // ---- octet by octet -------------------------------------------------------------------------------------

  /** `00 01 FF .. FF 00`, the DigestInfo of SHA-256, and in its last 32 octets the digest of the message. */
  ghost predicate EncodesDigest(em: seq<byte>, k: nat, digest: Digest) {
    && |em| == k >= 62
    && em[0] == 0x00 && em[1] == 0x01
    && (forall i :: 2 <= i < k - 52 ==> em[i] == 0xff)
    && em[k - 52] == 0x00
    && em[k - 51..] == DigestInfo(ObjectIdentifier(SHA256_ARCS), digest)
    && em[k - 32..] == digest
  }

  lemma Parts(head: seq<byte>, padding: seq<byte>, prefix: seq<byte>, digest: seq<byte>, em: seq<byte>)
    requires |head| == 2 && |prefix| == 19 && |digest| == 32
    requires em == head + padding + [0x00] + (prefix + digest)
    ensures var k := |em|;
            && k == |padding| + 54 && em[0] == head[0] && em[1] == head[1]
            && (forall i :: 2 <= i < k - 52 ==> em[i] == padding[i - 2])
            && em[k - 52] == 0x00 && em[k - 51..] == prefix + digest && em[k - 32..] == digest
  {
  }

  lemma EncodedOctets(sha256: seq<byte> -> Digest, message: seq<byte>, keyBytes: nat)
    ensures keyBytes < 62 ==> Encode(sha256, message, keyBytes) == Err(KeyTooSmall)
    ensures keyBytes >= 62 ==>
              var em := Encode(sha256, message, keyBytes);
              em.Ok? && EncodesDigest(em.value, keyBytes, sha256(message))
  {
    if keyBytes >= 62 {
      var em := Encode(sha256, message, keyBytes).value;
      Parts([0x00, 0x01], Padding(keyBytes - 54), DIGEST_INFO_PREFIX, sha256(message), em);
      PrefixIsDer(sha256(message));
    }
  }

  // ---- what a signature says -------------------------------------------------------------------------------

  /** One signature cannot stand for messages of different digests. */
  lemma SignatureTellsDigest(sha256: seq<byte> -> Digest, n: nat, e: nat, m: seq<byte>, m': seq<byte>, s: seq<byte>)
    requires n > 0 && Verifies(sha256, n, e, m, s) && Verifies(sha256, n, e, m', s)
    ensures sha256(m) == sha256(m')
  {
    EncodedOctets(sha256, m, KeyBytes(n));
    EncodedOctets(sha256, m', KeyBytes(n));
  }

  lemma PairReversed(n: nat, e: nat, d: nat, p: nat, q: nat)
    requires KeyPair(n, e, d, p, q)
    ensures KeyPair(n, d, e, p, q)
  {
    assert d * e == e * d;
  }

  lemma RaisedBack(n: nat, s: nat, e: nat, d: nat, p: nat, q: nat)
    requires KeyPair(n, e, d, p, q) && s < n
    ensures n > 0 && Pow(Pow(s, e) % n, d) % n == s
  {
    PairReversed(n, e, d, p, q);
    RsaCorrect(s, n, d, e, p, q);
  }

  /** What verifies under the public half is the signature the private half makes, and nothing else. */
  lemma OnlySignatureVerifies(sha256: seq<byte> -> Digest, n: nat, e: nat, d: nat, p: nat, q: nat, message: seq<byte>,
                              s: seq<byte>)
    requires KeyPair(n, e, d, p, q)
    ensures n > 0 && (Verifies(sha256, n, e, message, s) <==> Sign(sha256, n, d, message) == Ok(s))
  {
    SignatureVerifies(sha256, n, e, d, p, q, message);
    if Verifies(sha256, n, e, message, s) {
      KeyBytesBounds(n);
      RaisedBack(n, FromBytes(s), e, d, p, q);
      ToFromBytes(Pow(FromBytes(s), e) % n, KeyBytes(n));
      FromToBytes(s);
    }
  }
}
