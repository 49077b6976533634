/** Congruences, powers, binomials and primes: what RSA rests on. */
module Modular {

  ghost predicate MultipleBy(x: int, m: int, k: int) { x == m * k }

  ghost predicate Divides(m: int, x: int) { exists k :: MultipleBy(x, m, k) }

  ghost predicate Congruent(a: int, b: int, m: int) { Divides(m, a - b) }

  lemma DividesFrom(m: int, x: int, k: int)
    requires x == m * k
    ensures Divides(m, x)
  {
    assert MultipleBy(x, m, k);
  }

  lemma Quotient(m: int, x: int) returns (k: int)
    requires Divides(m, x)
    ensures x == m * k
  {
    k :| MultipleBy(x, m, k);
  }

  lemma DividesSum(m: int, x: int, y: int)
    requires Divides(m, x) && Divides(m, y)
    ensures Divides(m, x + y) && Divides(m, x - y)
  {
    var j := Quotient(m, x);
    var k := Quotient(m, y);
    assert x + y == m * (j + k) && x - y == m * (j - k);
    DividesFrom(m, x + y, j + k);
    DividesFrom(m, x - y, j - k);
  }

  lemma DividesTimes(m: int, x: int, c: int)
    requires Divides(m, x)
    ensures Divides(m, c * x) && Divides(m, x * c)
  {
    var k := Quotient(m, x);
    assert c * x == m * (c * k) by { Associate(c, m, k); }
    assert x * c == c * x;
    DividesFrom(m, c * x, c * k);
  }

  lemma Associate(a: int, b: int, c: int)
    ensures a * (b * c) == b * (a * c) == (a * b) * c
  {
  }

  lemma CongruentRefl(a: int, m: int)
    ensures Congruent(a, a, m)
  {
    DividesFrom(m, a - a, 0);
  }

  lemma CongruentTrans(a: int, b: int, c: int, m: int)
    requires Congruent(a, b, m) && Congruent(b, c, m)
    ensures Congruent(a, c, m)
  {
    DividesSum(m, a - b, b - c);
    assert (a - b) + (b - c) == a - c;
  }

  lemma CongruentTimes(a: int, b: int, c: int, m: int)
    requires Congruent(a, b, m)
    ensures Congruent(a * c, b * c, m)
  {
    DividesTimes(m, a - b, c);
    assert (a - b) * c == a * c - b * c;
  }

  lemma CongruentProduct(a: int, b: int, c: int, d: int, m: int)
    requires Congruent(a, b, m) && Congruent(c, d, m)
    ensures Congruent(a * c, b * d, m)
  {
    CongruentTimes(a, b, c, m);
    CongruentTimes(c, d, b, m);
    assert c * b == b * c && d * b == b * d;
    CongruentTrans(a * c, b * c, b * d, m);
  }

  lemma ModCongruent(a: int, m: int)
    requires m > 0
    ensures Congruent(a % m, a, m)
  {
    assert a % m - a == m * (-(a / m));
    DividesFrom(m, a % m - a, -(a / m));
  }

  /** A residue in range is determined by its class. */
  lemma CongruentInRange(a: int, b: int, m: int)
    requires m > 0 && 0 <= a < m && 0 <= b < m && Congruent(a, b, m)
    ensures a == b
  {
    var k := Quotient(m, a - b);
    if k >= 1 {
      MulAtLeast(m, k);
    } else if k <= -1 {
      assert m * (-k) == -(m * k);
      MulAtLeast(m, -k);
    }
  }

  lemma MulAtLeast(m: int, k: int)
    requires m > 0 && k >= 1
    ensures m * k >= m
  {
  }

  // ---- powers --------------------------------------------------------------------------------------

  function Pow(a: int, n: nat): int {
    if n == 0 then 1 else a * Pow(a, n - 1)
  }

  lemma {:induction false} PowAdd(a: int, m: nat, n: nat)
    ensures Pow(a, m + n) == Pow(a, m) * Pow(a, n)
  {
    if m > 0 {
      PowAdd(a, m - 1, n);
      Associate(a, Pow(a, m - 1), Pow(a, n));
    }
  }

  lemma {:induction false} PowMul(a: int, m: nat, n: nat)
    ensures m * n >= 0 && Pow(a, m * n) == Pow(Pow(a, m), n)
  {
    if n == 0 {
      assert m * n == 0;
    } else {
      PowMul(a, m, n - 1);
      assert m * n == m + m * (n - 1);
      PowAdd(a, m, m * (n - 1));
    }
  }

  lemma {:induction false} PowCongruent(a: int, b: int, n: nat, m: int)
    requires Congruent(a, b, m)
    ensures Congruent(Pow(a, n), Pow(b, n), m)
  {
    if n == 0 {
      CongruentRefl(1, m);
    } else {
      PowCongruent(a, b, n - 1, m);
      CongruentProduct(a, b, Pow(a, n - 1), Pow(b, n - 1), m);
    }
  }

  // ---- the binomial theorem --------------------------------------------------------------------------

  function Choose(n: nat, k: nat): nat {
    if k == 0 then 1 else if n == 0 then 0 else Choose(n - 1, k - 1) + Choose(n - 1, k)
  }

  /** The terms of degree 0 to `k` of the expansion of `(1 + a)^n`. */
  function Expansion(a: int, n: nat, k: nat): int {
    if k == 0 then 1 else Expansion(a, n, k - 1) + Choose(n, k) * Pow(a, k)
  }

  lemma {:induction false} ChooseBeyond(n: nat, k: nat)
    requires k > n
    ensures Choose(n, k) == 0
  {
    if n > 0 {
      ChooseBeyond(n - 1, k - 1);
      ChooseBeyond(n - 1, k);
    }
  }

  lemma {:induction false} ChooseAll(n: nat)
    ensures Choose(n, n) == 1
  {
    if n > 0 {
      ChooseAll(n - 1);
      ChooseBeyond(n - 1, n);
    }
  }

  lemma {:induction false} ExpansionStep(a: int, n: nat, k: nat)
    ensures (1 + a) * Expansion(a, n, k) == Expansion(a, n + 1, k) + Choose(n, k) * Pow(a, k + 1)
  {
    if k == 0 {
      assert Pow(a, 1) == a * Pow(a, 0) == a;
    } else {
      ExpansionStep(a, n, k - 1);
      var c, d, x := Choose(n, k - 1), Choose(n, k), Pow(a, k);
      assert Pow(a, k + 1) == a * x;
      Distribute(a, Expansion(a, n, k - 1), d, x);
      assert Choose(n + 1, k) == c + d;
      Spread(c, d, x);
    }
  }

  lemma Spread(c: int, d: int, x: int)
    ensures (c + d) * x == c * x + d * x
  {
  }

  lemma Distribute(a: int, s: int, d: int, x: int)
    ensures (1 + a) * (s + d * x) == (1 + a) * s + d * x + d * (a * x)
  {
    assert (1 + a) * (s + d * x) == (1 + a) * s + (1 + a) * (d * x);
    assert (1 + a) * (d * x) == d * x + a * (d * x);
    Associate(a, d, x);
  }

  lemma {:induction false} BinomialTheorem(a: int, n: nat)
    ensures Pow(1 + a, n) == Expansion(a, n, n)
  {
    if n > 0 {
      BinomialTheorem(a, n - 1);
      ExpansionStep(a, n - 1, n - 1);
      ChooseAll(n - 1);
      ChooseAll(n);
    }
  }

  /** k * C(n, k) == n * C(n - 1, k - 1). */
  lemma {:induction false} Absorption(n: nat, k: nat)
    requires n >= 1 && k >= 1
    ensures k * Choose(n, k) == n * Choose(n - 1, k - 1)
  {
    if n == 1 {
      if k > 1 {
        ChooseBeyond(1, k);
        ChooseBeyond(0, k - 1);
      }
    } else {
      Absorption(n - 1, k);
      if k > 1 { Absorption(n - 1, k - 1); }
      var v := Choose(n - 2, k - 1);
      AbsorptionStep(n, k, Choose(n - 1, k - 1), Choose(n - 1, k), Choose(n - 1, k - 1) - v, v);
    }
  }

  lemma AbsorptionStep(n: int, k: int, x: int, y: int, u: int, v: int)
    requires x == u + v && k * y == (n - 1) * v && (k - 1) * x == (n - 1) * u
    ensures k * (x + y) == n * x
  {
    assert k * (x + y) == x + (k - 1) * x + k * y;
    assert (n - 1) * u + (n - 1) * v == (n - 1) * x;
    assert x + (n - 1) * x == n * x;
  }

  // ---- primes --------------------------------------------------------------------------------------

  ghost predicate Prime(p: int) {
    p >= 2 && forall a :: 2 <= a < p ==> !Divides(a, p)
  }

  /** Euclid's lemma for a factor below the prime. */
  lemma {:induction false} EuclidBelow(p: int, a: int, b: int)
    requires Prime(p) && 0 < a < p && Divides(p, a * b)
    ensures Divides(p, b)
    decreases a
  {
    var q, r := p / a, p % a;
    assert p == a * q + r;
    if r == 0 {
      DividesFrom(a, p, q);
      assert a == 1;
      assert a * b == b;
    } else {
      DividesTimes(p, a * b, q);
      DividesFrom(p, p * b, b);
      DividesSum(p, p * b, q * (a * b));
      assert p * b - q * (a * b) == r * b by {
        assert p * b == (a * q) * b + r * b;
        Associate(q, a, b);
        assert (q * a) * b == (a * q) * b;
      }
      EuclidBelow(p, r, b);
    }
  }

  lemma {:induction false} PrimeDividesChoose(p: int, k: nat)
    requires Prime(p) && 0 < k < p
    ensures Divides(p, Choose(p, k))
  {
    Absorption(p, k);
    DividesFrom(p, k * Choose(p, k), Choose(p - 1, k - 1));
    EuclidBelow(p, k, Choose(p, k));
  }

  lemma {:induction false} ExpansionModPrime(a: int, p: int, k: nat)
    requires Prime(p) && k < p
    ensures Congruent(Expansion(a, p, k), 1, p)
  {
    if k == 0 {
      CongruentRefl(1, p);
    } else {
      ExpansionModPrime(a, p, k - 1);
      PrimeDividesChoose(p, k);
      DividesTimes(p, Choose(p, k), Pow(a, k));
      DividesSum(p, Expansion(a, p, k - 1) - 1, Choose(p, k) * Pow(a, k));
    }
  }

  lemma FermatExpansion(b: int, p: int)
    requires p >= 1
    ensures Pow(1 + b, p) == Expansion(b, p, p - 1) + Pow(b, p)
  {
    BinomialTheorem(b, p);
    ChooseAll(p);
  }

  lemma CongruentSum(a: int, b: int, c: int, d: int, m: int)
    requires Congruent(a, b, m) && Congruent(c, d, m)
    ensures Congruent(a + c, b + d, m)
  {
    DividesSum(m, a - b, c - d);
    assert (a - b) + (c - d) == (a + c) - (b + d);
  }

  lemma PowZero(n: int)
    requires n >= 1
    ensures Pow(0, n) == 0
  {
  }

  lemma FermatStep(b: nat, p: int)
    requires Prime(p) && Congruent(Pow(b, p), b, p)
    ensures Congruent(Pow(1 + b, p), 1 + b, p)
  {
    ExpansionModPrime(b, p, p - 1);
    CongruentSum(Expansion(b, p, p - 1), 1, Pow(b, p), b, p);
    FermatExpansion(b, p);
  }

  /** Fermat's little theorem. */
  lemma {:induction false} Fermat(a: nat, p: int)
    requires Prime(p)
    ensures Congruent(Pow(a, p), a, p)
  {
    if a == 0 {
      PowZero(p);
      CongruentRefl(0, p);
    } else {
      Fermat(a - 1, p);
      FermatStep(a - 1, p);
    }
  }

  /** Raising to an exponent that is 1 modulo p - 1 changes nothing modulo p. */
  lemma {:induction false} FermatTower(m: nat, p: int, t: nat)
    requires Prime(p)
    ensures t * (p - 1) >= 0 && Congruent(Pow(m, 1 + t * (p - 1)), m, p)
  {
    if t == 0 {
      assert Pow(m, 1) == m * Pow(m, 0) == m;
      assert 0 * (p - 1) == 0;
      CongruentRefl(m, p);
    } else {
      FermatTower(m, p, t - 1);
      var x := 1 + (t - 1) * (p - 1);
      assert 1 + t * (p - 1) == x + (p - 1);
      PowAdd(m, x, p - 1);
      CongruentTimes(Pow(m, x), m, Pow(m, p - 1), p);
      assert m * Pow(m, p - 1) == Pow(m, p);
      Fermat(m, p);
      CongruentTrans(Pow(m, 1 + t * (p - 1)), Pow(m, p), m, p);
    }
  }

  /** Distinct primes that both divide a number divide it together. */
  lemma PrimesTogether(p: int, q: int, x: int)
    requires Prime(p) && Prime(q) && p != q && Divides(p, x) && Divides(q, x)
    ensures Divides(p * q, x)
  {
    var k := Quotient(p, x);
    var r := p % q;
    assert p == q * (p / q) + r;
    if r == 0 {
      assert p / q >= 1;
      MulAtLeast(q, p / q);
      DividesFrom(q, p, p / q);
      assert false;
    }
    DividesFrom(q, q * ((p / q) * k), (p / q) * k);
    DividesSum(q, x, q * ((p / q) * k));
    assert x - q * ((p / q) * k) == r * k by {
      assert x == p * k == (q * (p / q)) * k + r * k;
      Associate(q, p / q, k);
    }
    EuclidBelow(q, r, k);
    var j := Quotient(q, k);
    assert x == (p * q) * j by { Associate(p, q, j); }
    DividesFrom(p * q, x, j);
  }
}
