/** Python text as the code handles it: sequences of code points, lone surrogates included. */
module Text {
  import opened Sorting

  type CodePoints = s: seq<int> | forall i :: 0 <= i < |s| ==> 0 <= s[i] <= 0x10FFFF

  predicate IsHigh(c: int) { 0xD800 <= c < 0xDC00 }

  predicate IsLow(c: int) { 0xDC00 <= c < 0xE000 }

  /** No high surrogate stands directly before a low one. */
  predicate NoPair(s: seq<int>) {
    forall i :: 0 <= i < |s| - 1 ==> !(IsHigh(s[i]) && IsLow(s[i + 1]))
  }

  /** The strings a JSON decoder can produce: `json.loads` merges every escaped surrogate pair. */
  type Str = s: CodePoints | NoPair(s)

  /** A literal of the program as text. */
  function Lit(s: string): (t: Str)
    ensures |t| == |s|
  {
    var t := seq(|s|, i requires 0 <= i < |s| => s[i] as int);
    assert forall i :: 0 <= i < |t| ==> t[i] == s[i] as int;
    t
  }

  lemma LitInjective(a: string, b: string)
    ensures Lit(a) == Lit(b) <==> a == b
  {
    if Lit(a) == Lit(b) {
      forall i | 0 <= i < |a| ensures a[i] == b[i] {
        assert Lit(a)[i] == a[i] as int && Lit(b)[i] == b[i] as int;
      }
    }
  }

  /** Python's string order: code point by code point, a proper prefix first. */
  predicate Below(a: seq<int>, b: seq<int>) {
    a == [] || (b != [] && (a[0] < b[0] || (a[0] == b[0] && Below(a[1..], b[1..]))))
  }

  /** `a` is a prefix of `b`, or it is smaller where the two first differ. */
  predicate Precedes(a: seq<int>, b: seq<int>) {
    a <= b || exists k :: 0 <= k < |a| && k < |b| && a[..k] == b[..k] && a[k] < b[k]
  }

  lemma {:induction false} BelowExactly(a: seq<int>, b: seq<int>)
    ensures Below(a, b) <==> Precedes(a, b)
  {
    if a != [] && b != [] {
      if a[0] == b[0] {
        BelowExactly(a[1..], b[1..]);
        PrecedesLater(a, b);
      } else if a[0] < b[0] {
        assert a[..0] == b[..0];
      }
    }
  }

  /** Behind an equal first element nothing changes. */
  lemma PrecedesLater(a: seq<int>, b: seq<int>)
    requires a != [] && b != [] && a[0] == b[0]
    ensures Precedes(a, b) <==> Precedes(a[1..], b[1..])
  {
    assert a == [a[0]] + a[1..] && b == [b[0]] + b[1..];
    if k :| 0 <= k < |a| && k < |b| && a[..k] == b[..k] && a[k] < b[k] {
      assert k > 0 && a[1..][..k - 1] == a[..k][1..] && b[1..][..k - 1] == b[..k][1..];
      assert a[1..][k - 1] < b[1..][k - 1];
    }
    if k :| 0 <= k < |a[1..]| && k < |b[1..]| && a[1..][..k] == b[1..][..k] && a[1..][k] < b[1..][k] {
      assert a[..k + 1] == [a[0]] + a[1..][..k] && b[..k + 1] == [b[0]] + b[1..][..k];
      assert a[k + 1] < b[k + 1];
    }
  }

  lemma {:induction false} BelowTotal(a: seq<int>, b: seq<int>)
    ensures Below(a, b) || Below(b, a)
    ensures Below(a, b) && Below(b, a) ==> a == b
  {
    if a != [] && b != [] {
      BelowTotal(a[1..], b[1..]);
      assert a == [a[0]] + a[1..] && b == [b[0]] + b[1..];
    }
  }

  lemma {:induction false} BelowTransitive(a: seq<int>, b: seq<int>, c: seq<int>)
    requires Below(a, b) && Below(b, c)
    ensures Below(a, c)
  {
    if a != [] && a[0] == b[0] == c[0] {
      BelowTransitive(a[1..], b[1..], c[1..]);
    }
  }

  /** `Below` as a function value over text, with the order laws the sorts need. */
  predicate StrBelow(a: Str, b: Str) { Below(a, b) }

  lemma StrOrder()
    ensures TotalPreorder(StrBelow) && Antisymmetric(StrBelow)
  {
    forall a: Str, b: Str
      ensures StrBelow(a, b) || StrBelow(b, a)
      ensures StrBelow(a, b) && StrBelow(b, a) ==> a == b
    {
      BelowTotal(a, b);
    }
    forall a: Str, b: Str, c: Str | StrBelow(a, b) && StrBelow(b, c) ensures StrBelow(a, c) {
      BelowTransitive(a, b, c);
    }
  }

  predicate IsLeast(keys: set<Str>, k: Str) { k in keys && forall j :: j in keys ==> StrBelow(k, j) }

  lemma LeastWith(keys: set<Str>, x: Str, k: Str)
    requires x in keys && IsLeast(keys - {x}, k)
    ensures IsLeast(keys, if StrBelow(x, k) then x else k)
  {
    var least := if StrBelow(x, k) then x else k;
    BelowTotal(x, k);
    forall j | j in keys ensures StrBelow(least, j) {
      if j == x {
        BelowTotal(x, x);
      } else {
        assert StrBelow(k, j);
        if StrBelow(x, k) { BelowTransitive(x, k, j); }
      }
    }
  }

  lemma {:induction false} LeastExists(keys: set<Str>)
    requires keys != {}
    ensures exists k :: IsLeast(keys, k)
  {
    var x :| x in keys;
    var rest := keys - {x};
    if rest == {} {
      BelowTotal(x, x);
      assert keys == {x};
      assert IsLeast(keys, x);
    } else {
      LeastExists(rest);
      var k :| IsLeast(rest, k);
      LeastWith(keys, x, k);
    }
  }

  lemma LeastUnique(keys: set<Str>, a: Str, b: Str)
    requires IsLeast(keys, a) && IsLeast(keys, b)
    ensures a == b
  {
    BelowTotal(a, b);
  }

  function Least(keys: set<Str>): (k: Str)
    requires keys != {}
    ensures IsLeast(keys, k)
  {
    LeastExists(keys);
    assert forall a, b :: IsLeast(keys, a) && IsLeast(keys, b) ==> a == b by {
      forall a, b | IsLeast(keys, a) && IsLeast(keys, b) ensures a == b { LeastUnique(keys, a, b); }
    }
    var k :| IsLeast(keys, k);
    k
  }

  lemma LeastFirst(keys: set<Str>, k: Str, rest: seq<Str>)
    requires IsLeast(keys, k) && forall j :: j in rest ==> j in keys - {k}
    requires Sorted(StrBelow, rest) && forall i, j :: 0 <= i < j < |rest| ==> rest[i] != rest[j]
    ensures Sorted(StrBelow, [k] + rest)
    ensures forall i, j :: 0 <= i < j < |[k] + rest| ==> ([k] + rest)[i] != ([k] + rest)[j]
  {
    var r := [k] + rest;
    forall i, j | 0 <= i < j < |r| ensures r[i] != r[j] && StrBelow(r[i], r[j]) {
      assert r[j] == rest[j - 1] && r[j] in rest;
      if i > 0 { assert r[i] == rest[i - 1]; }
    }
  }

  /** `sorted(keys)` for the keys of a dictionary. */
  function SortedKeys(keys: set<Str>): (r: seq<Str>)
    ensures forall k :: k in r <==> k in keys
    ensures |r| == |keys|
    ensures Sorted(StrBelow, r)
    ensures forall i, j :: 0 <= i < j < |r| ==> r[i] != r[j]
  {
    if keys == {} then []
    else
      var k := Least(keys);
      var rest := SortedKeys(keys - {k});
      LeastFirst(keys, k, rest);
      [k] + rest
  }

  /** The characters Python's `str.strip()` and `str.split()` treat as whitespace. */
  predicate IsSpace(c: int) {
    || 0x09 <= c <= 0x0D || 0x1C <= c <= 0x20 || c == 0x85 || c == 0xA0 || c == 0x1680
    || 0x2000 <= c <= 0x200A || c == 0x2028 || c == 0x2029 || c == 0x202F || c == 0x205F || c == 0x3000
  }

  /** The twenty-nine of them. */
  lemma SpacesAre(c: int)
    ensures IsSpace(c) <==>
            c in {9, 10, 11, 12, 13, 28, 29, 30, 31, 32, 133, 160, 5760, 8192, 8193, 8194, 8195, 8196, 8197, 8198, 8199,
                  8200, 8201, 8202, 8232, 8233, 8239, 8287, 12288}
  {
  }

  /** Surrogates: the high ones, then the low ones, 1024 each. */
  lemma SurrogatesAre(c: int)
    ensures IsHigh(c) <==> 54 * 1024 <= c < 55 * 1024
    ensures IsLow(c) <==> 55 * 1024 <= c < 56 * 1024
  {
  }

  /** Truth of `s.strip()`. */
  predicate IsBlank(s: seq<int>) { forall i :: 0 <= i < |s| ==> IsSpace(s[i]) }
}
