/** Decimal notation of natural numbers: Python's `str(n)` and `int(text)` on ASCII digits. */
module Decimal {

  predicate IsDigit(c: char) { '0' <= c <= '9' }

  predicate AllDigits(s: string) { forall i :: 0 <= i < |s| ==> IsDigit(s[i]) }

  function DigitOf(n: int): (c: char)
    requires 0 <= n < 10
    ensures IsDigit(c)
  {
    ('0' as int + n) as char
  }

  function Digits(n: nat): (s: string)
    ensures s != [] && AllDigits(s)
  {
    if n < 10 then [DigitOf(n)] else Digits(n / 10) + [DigitOf(n % 10)]
  }

  function NatOf(s: string): (n: nat)
    requires AllDigits(s)
  {
    if s == [] then 0 else 10 * NatOf(s[..|s| - 1]) + (s[|s| - 1] as int - '0' as int)
  }

  /** Reading back what was written gives the number; so `Digits` is injective. */
  lemma {:induction false} NatOfDigits(n: nat)
    ensures NatOf(Digits(n)) == n
  {
    if n >= 10 {
      NatOfDigits(n / 10);
      var s := Digits(n);
      assert s[..|s| - 1] == Digits(n / 10);
    }
  }

  /** The numeral without its leading zeros. */
  function Plain(s: string): string {
    if |s| > 1 && s[0] == '0' then Plain(s[1..]) else s
  }

  lemma {:induction false} PlainStep(s: string, c: char)
    requires s != []
    ensures Plain(s + [c]) == if Plain(s) == "0" then [c] else Plain(s) + [c]
  {
    if s[0] == '0' {
      assert (s + [c])[1..] == s[1..] + [c];
      if |s| > 1 { PlainStep(s[1..], c); }
    }
  }

  lemma DigitsStep(m: nat, c: char)
    requires IsDigit(c)
    ensures Digits(10 * m + (c as int - '0' as int)) == if m == 0 then [c] else Digits(m) + [c]
    ensures Digits(m) == "0" <==> m == 0
  {
    var d := c as int - '0' as int;
    assert (10 * m + d) / 10 == m && (10 * m + d) % 10 == d;
    NatOfDigits(m);
    NatOfDigits(0);
  }

  lemma {:induction false} DigitsOfNat(s: string)
    requires s != [] && AllDigits(s)
    ensures Digits(NatOf(s)) == Plain(s)
  {
    var n := |s| - 1;
    DigitsStep(NatOf(s[..n]), s[n]);
    if n == 0 {
      assert s == [s[0]];
    } else {
      DigitsOfNat(s[..n]);
      PlainStep(s[..n], s[n]);
      assert s == s[..n] + [s[n]];
    }
  }

  /** Two numerals mean the same number exactly when they differ in leading zeros only. */
  lemma SameNumber(s: string, t: string)
    requires s != [] && AllDigits(s) && t != [] && AllDigits(t)
    ensures NatOf(s) == NatOf(t) <==> Plain(s) == Plain(t)
  {
    DigitsOfNat(s);
    DigitsOfNat(t);
    NatOfDigits(NatOf(s));
    NatOfDigits(NatOf(t));
  }
}
