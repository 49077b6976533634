/** From a stored key file to a signature GitHub accepts.

PEM armour and base64 are not part of this model: a key file is its DER octets.
 */
module AppToken {
  import opened Octets
  import opened Wrappers
  import Der
  import Signing

  datatype Error = BadKey(der: Der.Error) | Unsigned(reason: Signing.Error)

  /** `rs256_signature`: read the numbers, encode, sign. */
  function Rs256(sha256: seq<byte> -> Signing.Digest, message: seq<byte>, der: seq<byte>): Result<seq<byte>, Error> {
    var numbers := Der.PrivateNumbers(der);
    if numbers.Err? then Err(BadKey(numbers.reason))
    else
      var signature := Signing.Sign(sha256, numbers.value.0, numbers.value.1, message);
      if signature.Err? then Err(Unsigned(signature.reason)) else Ok(signature.value)
  }

  /** Whichever way a key pair of at least 62 octets is wrapped, signing with the file succeeds, gives the
      same signature, and the signature verifies under the public half. */
  lemma StoredKeySigns(sha256: seq<byte> -> Signing.Digest, message: seq<byte>, k: Der.Key,
                       algorithm: seq<byte>, attributes: seq<Der.Tlv>)
    requires Signing.KeyPair(k.n, k.e, k.d, k.p, k.q) && KeyBytes(k.n) >= 62
    requires Der.Writable(Der.Pkcs1Fields(k)) && Der.Writable(Der.Pkcs8Fields(k, algorithm, attributes))
    ensures var r := Rs256(sha256, message, Der.Pkcs1(k));
            && r.Ok? && k.n > 0 && Signing.Verifies(sha256, k.n, k.e, message, r.value)
            && Rs256(sha256, message, Der.Pkcs8(k, algorithm, attributes)) == r
  {
    Der.Pkcs1Numbers(k);
    Der.Pkcs8Numbers(k, algorithm, attributes);
    Signing.SignatureVerifies(sha256, k.n, k.e, k.d, k.p, k.q, message);
  }
}
