/** Octet strings and the big-endian integers they spell (RFC 8017, sections 4.1 and 4.2). */
module Octets {
  import opened Modular

  type byte = x: int | 0 <= x < 256

  /** `int.from_bytes(b, "big")`. */
  function FromBytes(b: seq<byte>): nat {
    if b == [] then 0 else 256 * FromBytes(b[..|b| - 1]) + b[|b| - 1]
  }

  /** `n.to_bytes(length, "big")`; the precondition is what keeps Python from raising OverflowError. */
  function ToBytes(n: nat, length: nat): (b: seq<byte>)
    requires n < Pow(256, length)
    ensures |b| == length
  {
    if length == 0 then [] else ToBytes(n / 256, length - 1) + [n % 256]
  }

  lemma {:induction false} PowPositive(a: int, n: nat)
    requires a >= 1
    ensures Pow(a, n) >= 1
  {
    if n > 0 { PowPositive(a, n - 1); }
  }

  lemma {:induction false} FromBytesBound(b: seq<byte>)
    ensures FromBytes(b) < Pow(256, |b|)
  {
    if b != [] { FromBytesBound(b[..|b| - 1]); }
  }

  lemma {:induction false} ToFromBytes(n: nat, length: nat)
    requires n < Pow(256, length)
    ensures FromBytes(ToBytes(n, length)) == n
  {
    if length > 0 {
      ToFromBytes(n / 256, length - 1);
      assert ToBytes(n, length)[..length - 1] == ToBytes(n / 256, length - 1);
    }
  }

  lemma {:induction false} FromToBytes(b: seq<byte>)
    ensures FromBytes(b) < Pow(256, |b|) && ToBytes(FromBytes(b), |b|) == b
  {
    FromBytesBound(b);
    if b != [] {
      FromToBytes(b[..|b| - 1]);
      var n := FromBytes(b);
      assert n / 256 == FromBytes(b[..|b| - 1]) && n % 256 == b[|b| - 1];
      assert b == b[..|b| - 1] + [b[|b| - 1]];
    }
  }

  lemma {:induction false} FromBytesLeadingZero(b: seq<byte>)
    ensures FromBytes([0] + b) == FromBytes(b)
  {
    if b == [] {
      assert ([0] + b)[..0] == [];
    } else {
      assert ([0] + b)[..|b|] == [0] + b[..|b| - 1];
      FromBytesLeadingZero(b[..|b| - 1]);
    }
  }

  /** The shortest octet string of a number; none for zero. */
  function Minimal(n: nat): (b: seq<byte>)
    ensures FromBytes(b) == n
    ensures n > 0 ==> |b| > 0 && b[0] > 0
  {
    if n == 0 then []
    else
      var front := Minimal(n / 256);
      var b := front + [n % 256];
      assert b[..|b| - 1] == front;
      b
  }

  // ---- key lengths -----------------------------------------------------------------------------------

  /** `n.bit_length()`. */
  function BitLength(n: nat): nat {
    if n == 0 then 0 else 1 + BitLength(n / 2)
  }

  lemma {:induction false} BitLengthBounds(n: nat)
    ensures n < Pow(2, BitLength(n))
    ensures n > 0 ==> BitLength(n) >= 1 && Pow(2, BitLength(n) - 1) <= n
  {
    if n > 0 {
      BitLengthBounds(n / 2);
      if n / 2 == 0 { assert BitLength(n / 2) == 0; }
    }
  }

  /** The number of octets of the modulus. */
  function KeyBytes(n: nat): nat { (BitLength(n) + 7) / 8 }

  lemma Pow256(k: nat)
    ensures Pow(256, k) == Pow(2, 8 * k)
  {
    PowMul(2, 8, k);
    assert Pow(2, 8) == 256;
  }

  lemma {:induction false} PowMonotone(a: int, m: nat, n: nat)
    requires a >= 1 && m <= n
    ensures Pow(a, m) <= Pow(a, n)
    decreases n
  {
    if m < n {
      PowMonotone(a, m, n - 1);
      PowPositive(a, n - 1);
    }
  }

  /** A modulus needs all of its octets and no more. */
  lemma KeyBytesBounds(n: nat)
    requires n > 0
    ensures KeyBytes(n) >= 1 && Pow(256, KeyBytes(n) - 1) <= n < Pow(256, KeyBytes(n))
  {
    BitLengthBounds(n);
    var k := KeyBytes(n);
    Pow256(k);
    Pow256(k - 1);
    PowMonotone(2, BitLength(n), 8 * k);
    PowMonotone(2, 8 * (k - 1), BitLength(n) - 1);
  }
}
