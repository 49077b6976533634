/** The hand-written DER reader (ITU-T X.690, section 8.1.3) and the two private key wrappings it reads. */
module Der {
  import Sequences
  import opened Modular
  import opened Octets
  import opened Wrappers

  datatype Error = Truncated | InvalidLength | NotASequence | NotRsa

  datatype Tlv = Tlv(tag: byte, content: seq<byte>)

  datatype Read = Read(field: Tlv, rest: seq<byte>)

  /** `_der_read`: one tag, length and content from the front. */
  function DerRead(der: seq<byte>): (r: Result<Read, Error>)
    ensures r.Ok? ==> |r.value.rest| <= |der| - 2
  {
    if |der| < 2 then Err(Truncated)
    else
      var first := der[1];
      if first < 0x80 then Take(der, 2, first)
      else
        var lengthBytes := first - 0x80;
        if lengthBytes == 0 || |der| < 2 + lengthBytes then Err(InvalidLength)
        else Take(der, 2 + lengthBytes, FromBytes(der[2..2 + lengthBytes]))
  }

  function Take(der: seq<byte>, start: nat, length: nat): Result<Read, Error>
    requires 2 <= start <= |der|
  {
    if start + length > |der| then Err(Truncated)
    else Ok(Read(Tlv(der[0], der[start..start + length]), der[start + length..]))
  }

  /** The fields of a SEQUENCE's content, one after the other. */
  function Fields(content: seq<byte>): Result<seq<Tlv>, Error>
    decreases |content|
  {
    if content == [] then Ok([])
    else
      var head := DerRead(content);
      if head.Err? then Err(head.reason)
      else
        var tail := Fields(head.value.rest);
        if tail.Err? then tail else Ok([head.value.field] + tail.value)
  }

  function DerSequence(der: seq<byte>): Result<seq<Tlv>, Error> {
    var outer := DerRead(der);
    if outer.Err? then Err(outer.reason)
    else if outer.value.field.tag != 0x30 || outer.value.rest != [] then Err(NotASequence)
    else Fields(outer.value.field.content)
  }

  ghost function After(fields: seq<Tlv>, more: Result<seq<Tlv>, Error>): Result<seq<Tlv>, Error> {
    match more case Ok(fs) => Ok(fields + fs) case Err(e) => Err(e)
  }

  lemma FieldsStep(fields: seq<Tlv>, content: seq<byte>)
    requires content != []
    ensures var next := DerRead(content);
            After(fields, Fields(content)) ==
            if next.Err? then Err(next.reason) else After(fields + [next.value.field], Fields(next.value.rest))
  {
    var next := DerRead(content);
    if next.Ok? && Fields(next.value.rest).Ok? {
      var f, fs := next.value.field, Fields(next.value.rest).value;
      assert fields + ([f] + fs) == (fields + [f]) + fs;
    }
  }

  /** `_der_sequence` as it loops: every read strictly shrinks what is left. */
  method ReadSequence(der: seq<byte>) returns (r: Result<seq<Tlv>, Error>)
    ensures r == DerSequence(der)
  {
    var outer := DerRead(der);
    if outer.Err? { return Err(outer.reason); }
    if outer.value.field.tag != 0x30 || outer.value.rest != [] { return Err(NotASequence); }
    var content := outer.value.field.content;
    var fields: seq<Tlv> := [];
    assert After([], Fields(content)) == Fields(content) by {
      if Fields(content).Ok? { assert [] + Fields(content).value == Fields(content).value; }
    }
    while content != []
      invariant DerSequence(der) == After(fields, Fields(content))
      decreases |content|
    {
      FieldsStep(fields, content);
      var next := DerRead(content);
      if next.Err? { return Err(next.reason); }
      fields := fields + [next.value.field];
      content := next.value.rest;
    }
    assert fields + [] == fields;
    r := Ok(fields);
  }

  // ---- encoding --------------------------------------------------------------------------------------

  /** Lengths with at most 126 length octets can be written; X.690 reserves the octet 0xFF. */
  ghost predicate Encodable(length: nat) { |Minimal(length)| <= 126 }

  function Header(tag: byte, length: nat): seq<byte>
    requires Encodable(length)
  {
    if length < 0x80 then [tag, length] else [tag, 0x80 + |Minimal(length)|] + Minimal(length)
  }

  function Encode(t: Tlv): seq<byte>
    requires Encodable(|t.content|)
  {
    Header(t.tag, |t.content|) + t.content
  }

  ghost predicate AllEncodable(fields: seq<Tlv>) { forall i :: 0 <= i < |fields| ==> Encodable(|fields[i].content|) }

  function EncodeAll(fields: seq<Tlv>): seq<byte>
    requires AllEncodable(fields)
  {
    if fields == [] then [] else Encode(fields[0]) + EncodeAll(fields[1..])
  }

  /** Reading an encoded field followed by anything gives the field and leaves what followed. */
  lemma ReadEncoded(t: Tlv, rest: seq<byte>)
    requires Encodable(|t.content|)
    ensures DerRead(Encode(t) + rest) == Ok(Read(t, rest))
  {
    var h := Header(t.tag, |t.content|);
    var der := Encode(t) + rest;
    assert der == h + (t.content + rest);
    assert der[0] == h[0] == t.tag && der[1] == h[1];
    assert der[|h|..|h| + |t.content|] == t.content && der[|h| + |t.content|..] == rest;
    if |t.content| >= 0x80 {
      assert der[2..|h|] == Minimal(|t.content|);
    }
  }

  lemma {:induction false} FieldsEncoded(fields: seq<Tlv>)
    requires AllEncodable(fields)
    ensures Fields(EncodeAll(fields)) == Ok(fields)
  {
    if fields != [] {
      ReadEncoded(fields[0], EncodeAll(fields[1..]));
      FieldsEncoded(fields[1..]);
      assert fields == [fields[0]] + fields[1..];
    }
  }

  /** Decoding an encoded SEQUENCE gives back its fields. */
  lemma SequenceEncoded(fields: seq<Tlv>)
    requires AllEncodable(fields) && Encodable(|EncodeAll(fields)|)
    ensures DerSequence(Encode(Tlv(0x30, EncodeAll(fields)))) == Ok(fields)
  {
    var der := Encode(Tlv(0x30, EncodeAll(fields)));
    ReadEncoded(Tlv(0x30, EncodeAll(fields)), []);
    assert der + [] == der;
    FieldsEncoded(fields);
  }

  /** A successful read splits its input into a header, the content and the rest, whatever the input. */
  lemma ReadSplits(der: seq<byte>)
    requires DerRead(der).Ok?
    ensures var r := DerRead(der).value;
            var h := |der| - |r.field.content| - |r.rest|;
            2 <= h <= |der| && der == der[..h] + r.field.content + r.rest && r.field.tag == der[0]
  {
  }

  /** What follows a field does not change how it is read. */
  lemma ReadIgnoresRest(der: seq<byte>, more: seq<byte>)
    requires DerRead(der).Ok?
    ensures DerRead(der + more) == Ok(Read(DerRead(der).value.field, DerRead(der).value.rest + more))
  {
    var first := der[1];
    assert (der + more)[0] == der[0] && (der + more)[1] == first;
    var start := if first < 0x80 then 2 else 2 + (first - 0x80);
    assert (der + more)[2..start] == der[2..start];
    var length := |DerRead(der).value.field.content|;
    assert (der + more)[start..start + length] == der[start..start + length];
    assert (der + more)[start + length..] == der[start + length..] + more;
  }

  // ---- private keys ----------------------------------------------------------------------------------

  datatype Key = Key(n: nat, e: nat, d: nat, p: nat, q: nat, dp: nat, dq: nat, qinv: nat)

  /** A non-negative INTEGER: its shortest octets, with a zero octet before a set top bit. */
  function IntegerOctets(n: nat): (b: seq<byte>)
    ensures FromBytes(b) == n
  {
    var m := Minimal(n);
    if m == [] || m[0] >= 0x80 then
      FromBytesLeadingZero(m);
      [0x00] + m
    else m
  }

  function Integer(n: nat): Tlv { Tlv(0x02, IntegerOctets(n)) }

  function KeyNumbers(k: Key): seq<nat> { [0, k.n, k.e, k.d, k.p, k.q, k.dp, k.dq, k.qinv] }

  function Pkcs1Fields(k: Key): seq<Tlv> { Sequences.Map(Integer, KeyNumbers(k)) }

  ghost predicate Writable(fields: seq<Tlv>) { AllEncodable(fields) && Encodable(|EncodeAll(fields)|) }

  /** RSAPrivateKey, appendix A.1.2 of RFC 8017. */
  function Pkcs1(k: Key): seq<byte>
    requires Writable(Pkcs1Fields(k))
  {
    Encode(Tlv(0x30, EncodeAll(Pkcs1Fields(k))))
  }

  /** PrivateKeyInfo, section 5 of RFC 5208: version, algorithm, the key as octets, any attributes. */
  function Pkcs8Fields(k: Key, algorithm: seq<byte>, attributes: seq<Tlv>): seq<Tlv>
    requires Writable(Pkcs1Fields(k))
  {
    [Integer(0), Tlv(0x30, algorithm), Tlv(0x04, Pkcs1(k))] + attributes
  }

  function Pkcs8(k: Key, algorithm: seq<byte>, attributes: seq<Tlv>): seq<byte>
    requires Writable(Pkcs1Fields(k)) && Writable(Pkcs8Fields(k, algorithm, attributes))
  {
    Encode(Tlv(0x30, EncodeAll(Pkcs8Fields(k, algorithm, attributes))))
  }

  predicate AllIntegers(fields: seq<Tlv>, count: nat) {
    |fields| >= count && forall i :: 0 <= i < count ==> fields[i].tag == 0x02
  }

  /** `_rsa_private_numbers` behind the PEM armour: modulus and private exponent. */
  function PrivateNumbers(der: seq<byte>): Result<(nat, nat), Error> {
    var fields := DerSequence(der);
    if fields.Err? then Err(fields.reason)
    else if AllIntegers(fields.value, 9) then
      Ok((FromBytes(fields.value[1].content), FromBytes(fields.value[3].content)))
    else if |fields.value| >= 3 && fields.value[2].tag == 0x04 then
      var inner := DerSequence(fields.value[2].content);
      if inner.Err? then Err(inner.reason)
      else if AllIntegers(inner.value, 4) then
        Ok((FromBytes(inner.value[1].content), FromBytes(inner.value[3].content)))
      else Err(NotRsa)
    else Err(NotRsa)
  }

  lemma IntegerShape(n: nat)
    ensures Integer(n).tag == 0x02 && FromBytes(Integer(n).content) == n
  {
  }

  lemma IntegersShape(ns: seq<nat>)
    ensures var f := Sequences.Map(Integer, ns);
            forall i :: 0 <= i < |ns| ==> f[i].tag == 0x02 && FromBytes(f[i].content) == ns[i]
  {
    forall i | 0 <= i < |ns|
      ensures Sequences.Map(Integer, ns)[i].tag == 0x02 && FromBytes(Sequences.Map(Integer, ns)[i].content) == ns[i]
    {
      IntegerShape(ns[i]);
    }
  }

  lemma Pkcs1Shape(k: Key)
    ensures var f := Pkcs1Fields(k);
            AllIntegers(f, 9) && AllIntegers(f, 4) && FromBytes(f[1].content) == k.n && FromBytes(f[3].content) == k.d
  {
    IntegersShape(KeyNumbers(k));
    assert KeyNumbers(k)[1] == k.n && KeyNumbers(k)[3] == k.d;
  }

  lemma Pkcs1Reads(k: Key)
    requires Writable(Pkcs1Fields(k))
    ensures DerSequence(Pkcs1(k)) == Ok(Pkcs1Fields(k))
  {
    SequenceEncoded(Pkcs1Fields(k));
  }

  /** The PKCS#1 file of a key gives its modulus and private exponent. */
  lemma Pkcs1Numbers(k: Key)
    requires Writable(Pkcs1Fields(k))
    ensures PrivateNumbers(Pkcs1(k)) == Ok((k.n, k.d))
  {
    Pkcs1Reads(k);
    Pkcs1Shape(k);
  }

  lemma WrappedNumbers(der: seq<byte>, fields: seq<Tlv>, inner: seq<Tlv>)
    requires DerSequence(der) == Ok(fields) && |fields| >= 3 && fields[1].tag == 0x30 && fields[2].tag == 0x04
    requires DerSequence(fields[2].content) == Ok(inner) && AllIntegers(inner, 4)
    ensures PrivateNumbers(der) == Ok((FromBytes(inner[1].content), FromBytes(inner[3].content)))
  {
    assert !AllIntegers(fields, 9);
  }

  lemma ThreeFirst<T>(a: T, b: T, c: T, rest: seq<T>)
    ensures var s := [a, b, c] + rest; |s| >= 3 && s[1] == b && s[2] == c
  {
  }

  lemma Pkcs8Shape(k: Key, algorithm: seq<byte>, attributes: seq<Tlv>)
    requires Writable(Pkcs1Fields(k))
    ensures var fields := Pkcs8Fields(k, algorithm, attributes);
            |fields| >= 3 && fields[1].tag == 0x30 && fields[2].tag == 0x04 && fields[2].content == Pkcs1(k)
  {
    ThreeFirst(Integer(0), Tlv(0x30, algorithm), Tlv(0x04, Pkcs1(k)), attributes);
  }

  /** Every PKCS#8 file of a key, with any algorithm octets and attributes, gives the same numbers. */
  lemma Pkcs8Numbers(k: Key, algorithm: seq<byte>, attributes: seq<Tlv>)
    requires Writable(Pkcs1Fields(k)) && Writable(Pkcs8Fields(k, algorithm, attributes))
    ensures PrivateNumbers(Pkcs8(k, algorithm, attributes)) == Ok((k.n, k.d))
  {
    var fields := Pkcs8Fields(k, algorithm, attributes);
    SequenceEncoded(fields);
    Pkcs8Shape(k, algorithm, attributes);
    Pkcs1Reads(k);
    Pkcs1Shape(k);
    WrappedNumbers(Pkcs8(k, algorithm, attributes), fields, Pkcs1Fields(k));
  }

  // ---- what is read, octet by octet ------------------------------------------------------------------------

  /** The octets of a tag and a length: one length octet below 0x80, or 0x80 plus the number of length octets, which
      must not be zero. */
  ghost predicate Heads(header: seq<byte>, tag: byte, length: nat) {
    || (|header| == 2 && header[0] == tag && header[1] == length < 128)
    || (&& |header| >= 3 && header[0] == tag && header[1] == 126 + |header|
        && FromBytes(header[2..]) == length)
  }

  /** A field is read exactly from its header, its content and what follows. */
  lemma ReadExactly(der: seq<byte>, field: Tlv, rest: seq<byte>)
    ensures DerRead(der) == Ok(Read(field, rest)) <==>
            exists header :: Heads(header, field.tag, |field.content|) && der == header + field.content + rest
  {
    if DerRead(der) == Ok(Read(field, rest)) { HeaderFound(der, field, rest); }
    if header :| Heads(header, field.tag, |field.content|) && der == header + field.content + rest {
      HeaderReads(header, field, rest);
    }
  }

  lemma HeaderFound(der: seq<byte>, field: Tlv, rest: seq<byte>)
    requires DerRead(der) == Ok(Read(field, rest))
    ensures exists header :: Heads(header, field.tag, |field.content|) && der == header + field.content + rest
  {
    var start := if der[1] < 0x80 then 2 else 2 + (der[1] - 0x80);
    var header := der[..start];
    assert der == header + field.content + rest;
    assert header[2..] == der[2..start];
    assert Heads(header, field.tag, |field.content|);
  }

  lemma HeaderReads(header: seq<byte>, field: Tlv, rest: seq<byte>)
    requires Heads(header, field.tag, |field.content|)
    ensures DerRead(header + field.content + rest) == Ok(Read(field, rest))
  {
    var der := header + field.content + rest;
    var start := |header|;
    assert der[0] == header[0] && der[1] == header[1];
    assert der[start..start + |field.content|] == field.content && der[start + |field.content|..] == rest;
    if header[1] >= 128 { assert der[2..start] == header[2..]; }
  }

  /** The length itself is refused when it takes no octets or more than there are; anything else that fails is cut
      short. */
  lemma RefusedExactly(der: seq<byte>)
    ensures DerRead(der) == Err(InvalidLength) <==> |der| >= 2 && (der[1] == 128 || |der| + 126 < der[1])
    ensures DerRead(der).Err? ==> DerRead(der).reason in {InvalidLength, Truncated}
  {
  }

  /** The octets of an INTEGER are those of X.690, section 8.3: not empty, not negative, and none to spare. */
  lemma IntegerOctetsShortest(n: nat)
    ensures var b := IntegerOctets(n);
            b != [] && b[0] < 128 && (|b| >= 2 && b[0] == 0 ==> b[1] >= 128)
  {
  }

  ghost predicate IsInteger(field: Tlv) { field.tag == 2 }

  /** A key is read from nine integers, or else from four integers in the octets of a third field. */
  lemma NumbersExactly(der: seq<byte>, n: nat, d: nat)
    ensures PrivateNumbers(der) == Ok((n, d)) <==>
            && DerSequence(der).Ok?
            && var f := DerSequence(der).value;
               if |f| >= 9 && (forall i :: 0 <= i <= 8 ==> IsInteger(f[i])) then
                 n == FromBytes(f[1].content) && d == FromBytes(f[3].content)
               else
                 && |f| >= 3 && f[2].tag == 4 && DerSequence(f[2].content).Ok?
                 && var g := DerSequence(f[2].content).value;
                    && |g| >= 4 && IsInteger(g[0]) && IsInteger(g[1]) && IsInteger(g[2]) && IsInteger(g[3])
                    && n == FromBytes(g[1].content) && d == FromBytes(g[3].content)
  {
    if DerSequence(der).Ok? {
      var f := DerSequence(der).value;
      NineIntegers(f);
      if |f| >= 3 && DerSequence(f[2].content).Ok? { FourIntegers(DerSequence(f[2].content).value); }
    }
  }

  lemma NineIntegers(f: seq<Tlv>)
    ensures AllIntegers(f, 9) <==> |f| >= 9 && forall i :: 0 <= i <= 8 ==> IsInteger(f[i])
  {
    if AllIntegers(f, 9) {
      forall i | 0 <= i <= 8 ensures IsInteger(f[i]) { assert f[i].tag == 0x02; }
    }
    if |f| >= 9 && forall i :: 0 <= i <= 8 ==> IsInteger(f[i]) {
      forall i | 0 <= i < 9 ensures f[i].tag == 0x02 { assert IsInteger(f[i]); }
    }
  }

  lemma FourIntegers(g: seq<Tlv>)
    ensures AllIntegers(g, 4) <==>
            |g| >= 4 && IsInteger(g[0]) && IsInteger(g[1]) && IsInteger(g[2]) && IsInteger(g[3])
  {
    if |g| >= 4 && IsInteger(g[0]) && IsInteger(g[1]) && IsInteger(g[2]) && IsInteger(g[3]) {
      forall i | 0 <= i < 4 ensures g[i].tag == 0x02 { assert i == 0 || i == 1 || i == 2 || i == 3; }
    }
  }

  /** The third field holds octets, as the key does in PKCS#8. */
  ghost predicate Wraps(fields: seq<Tlv>) { |fields| >= 3 && fields[2].tag == 0x04 }

  /** A sequence that is neither is no RSA key; what cannot be read at all says why. */
  lemma NotRsaExactly(der: seq<byte>)
    ensures DerSequence(der).Err? ==> PrivateNumbers(der) == Err(DerSequence(der).reason)
    ensures var fields := DerSequence(der);
            fields.Ok? && !AllIntegers(fields.value, 9) && !Wraps(fields.value) ==> PrivateNumbers(der) == Err(NotRsa)
    ensures var fields := DerSequence(der);
            fields.Ok? && !AllIntegers(fields.value, 9) && Wraps(fields.value) ==>
              var inner := DerSequence(fields.value[2].content);
              && (inner.Err? ==> PrivateNumbers(der) == Err(inner.reason))
              && (inner.Ok? && !AllIntegers(inner.value, 4) ==> PrivateNumbers(der) == Err(NotRsa))
  {
  }
}
