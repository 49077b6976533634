/** Stable sorting by a total preorder, as Python's `list.sort` and `sorted` promise it.

The library's algorithm is not modelled.  A stable sort is determined by what it promises:
`StableSortUnique` shows that any two results that are sorted and keep the order of equivalent
elements are the same sequence, so the insertion sort below stands for every stable sort.
 */
module Sorting {

  ghost predicate TotalPreorder<T(!new)>(below: (T, T) -> bool) {
    && (forall x, y :: below(x, y) || below(y, x))
    && (forall x, y, z :: below(x, y) && below(y, z) ==> below(x, z))
  }

  ghost predicate Antisymmetric<T(!new)>(below: (T, T) -> bool) {
    forall x, y :: below(x, y) && below(y, x) ==> x == y
  }

  ghost predicate Sorted<T>(below: (T, T) -> bool, s: seq<T>) {
    forall i, j :: 0 <= i < j < |s| ==> below(s[i], s[j])
  }

  /** The elements of `s` that rank the same as `x`, in their order in `s`. */
  ghost function Class<T>(below: (T, T) -> bool, s: seq<T>, x: T): seq<T> {
    if s == [] then []
    else if below(s[0], x) && below(x, s[0]) then [s[0]] + Class(below, s[1..], x)
    else Class(below, s[1..], x)
  }

  ghost predicate SameClasses<T(!new)>(below: (T, T) -> bool, s: seq<T>, r: seq<T>) {
    forall x :: Class(below, s, x) == Class(below, r, x)
  }

  /** Puts `x` before the first element it does not rank above. */
  function Insert<T>(below: (T, T) -> bool, x: T, s: seq<T>): seq<T> {
    if s == [] then [x]
    else if below(x, s[0]) then [x] + s
    else [s[0]] + Insert(below, x, s[1..])
  }

  function Sort<T>(below: (T, T) -> bool, s: seq<T>): (r: seq<T>)
    ensures |r| == |s|
  {
    if s == [] then []
    else
      InsertLength(below, s[0], Sort(below, s[1..]));
      Insert(below, s[0], Sort(below, s[1..]))
  }

  lemma InsertLength<T>(below: (T, T) -> bool, x: T, s: seq<T>)
    ensures |Insert(below, x, s)| == |s| + 1
  {
  }

  lemma {:induction false} InsertContents<T>(below: (T, T) -> bool, x: T, s: seq<T>)
    ensures multiset(Insert(below, x, s)) == multiset(s) + multiset{x}
  {
    if s == [] {
    } else if below(x, s[0]) {
    } else {
      InsertContents(below, x, s[1..]);
      assert s == [s[0]] + s[1..];
    }
  }

  lemma {:induction false} InsertSorted<T(!new)>(below: (T, T) -> bool, x: T, s: seq<T>)
    requires TotalPreorder(below) && Sorted(below, s)
    ensures Sorted(below, Insert(below, x, s))
  {
    if s != [] && !below(x, s[0]) {
      InsertSorted(below, x, s[1..]);
      var r := Insert(below, x, s[1..]);
      InsertContents(below, x, s[1..]);
      forall y | y in r ensures below(s[0], y) {
        assert y in multiset(r);
        if y != x { assert y in s[1..]; }
      }
    }
  }

  lemma {:induction false} InsertClass<T(!new)>(below: (T, T) -> bool, x: T, s: seq<T>, k: T)
    requires TotalPreorder(below)
    ensures Class(below, Insert(below, x, s), k) == Class(below, [x] + s, k)
  {
    assert ([x] + s)[1..] == s;
    if s != [] && !below(x, s[0]) {
      InsertClass(below, x, s[1..], k);
      assert ([x] + s[1..])[1..] == s[1..];
      var r := [s[0]] + Insert(below, x, s[1..]);
      assert r[1..] == Insert(below, x, s[1..]);
    }
  }

  /** The sort is a sorted permutation that keeps equivalent elements in their order. */
  lemma {:induction false} SortIsStable<T(!new)>(below: (T, T) -> bool, s: seq<T>)
    requires TotalPreorder(below)
    ensures Sorted(below, Sort(below, s))
    ensures multiset(Sort(below, s)) == multiset(s)
    ensures SameClasses(below, s, Sort(below, s))
  {
    if s != [] {
      SortIsStable(below, s[1..]);
      var r := Sort(below, s[1..]);
      assert s == [s[0]] + s[1..];
      InsertContents(below, s[0], r);
      InsertSorted(below, s[0], r);
      InsertKeepsClasses(below, s[0], s[1..], r);
    }
  }

  lemma InsertKeepsClasses<T(!new)>(below: (T, T) -> bool, x: T, s: seq<T>, r: seq<T>)
    requires TotalPreorder(below) && SameClasses(below, s, r)
    ensures SameClasses(below, [x] + s, Insert(below, x, r))
  {
    forall k ensures Class(below, [x] + s, k) == Class(below, Insert(below, x, r), k) {
      InsertClass(below, x, r, k);
      assert ([x] + r)[1..] == r && ([x] + s)[1..] == s;
      assert Class(below, s, k) == Class(below, r, k);
    }
  }

  lemma {:induction false} ClassMember<T(!new)>(below: (T, T) -> bool, s: seq<T>, x: T)
    requires TotalPreorder(below)
    ensures x in s ==> Class(below, s, x) != []
    ensures forall y :: y in Class(below, s, x) ==> y in s && below(y, x) && below(x, y)
  {
    if s != [] {
      ClassMember(below, s[1..], x);
      assert below(s[0], s[0]);
    }
  }

  lemma ClassTail<T(!new)>(below: (T, T) -> bool, s: seq<T>, x: T)
    requires s != []
    ensures Class(below, s, x) ==
            (if below(s[0], x) && below(x, s[0]) then [s[0]] else []) + Class(below, s[1..], x)
  {
  }

  lemma HeadIsClassHead<T(!new)>(below: (T, T) -> bool, s: seq<T>, r: seq<T>)
    requires TotalPreorder(below) && Sorted(below, s) && Sorted(below, r)
    requires SameClasses(below, s, r) && s != []
    ensures r != [] && r[0] == s[0]
  {
    ClassMember(below, s, s[0]);
    assert Class(below, s, s[0]) == Class(below, r, s[0]);
    ClassMember(below, r, s[0]);
    var y := Class(below, r, s[0])[0];
    assert y in r;
    ClassMember(below, r, r[0]);
    assert Class(below, s, r[0]) == Class(below, r, r[0]);
    ClassMember(below, s, r[0]);
    var z := Class(below, s, r[0])[0];
    assert z in s;
    assert below(s[0], s[0]) && below(r[0], r[0]);
    assert below(r[0], y) && below(r[0], s[0]);
    assert below(s[0], z) && below(s[0], r[0]);
  }

  /** A stable sort has no freedom left: sorted with the same classes means the same sequence. */
  lemma {:induction false} StableSortUnique<T(!new)>(below: (T, T) -> bool, s: seq<T>, r: seq<T>)
    requires TotalPreorder(below)
    requires Sorted(below, s) && Sorted(below, r) && SameClasses(below, s, r)
    ensures s == r
  {
    if s == [] {
      if r != [] { HeadIsClassHead(below, r, s); }
    } else {
      HeadIsClassHead(below, s, r);
      forall k ensures Class(below, s[1..], k) == Class(below, r[1..], k) {
        ClassTail(below, s, k);
        ClassTail(below, r, k);
        var c := Class(below, s, k);
        assert c == Class(below, r, k);
        var h := if below(s[0], k) && below(k, s[0]) then 1 else 0;
        assert c[h..] == Class(below, s[1..], k) && c[h..] == Class(below, r[1..], k);
      }
      StableSortUnique(below, s[1..], r[1..]);
      assert s == [s[0]] + s[1..] && r == [r[0]] + r[1..];
    }
  }

  /** For a total order the sort sees only the multiset of its input, and all of it. */
  lemma SortEqualIffSameMultiset<T(!new)>(below: (T, T) -> bool, s: seq<T>, r: seq<T>)
    requires TotalPreorder(below) && Antisymmetric(below)
    ensures Sort(below, s) == Sort(below, r) <==> multiset(s) == multiset(r)
  {
    SortIsStable(below, s);
    SortIsStable(below, r);
    if multiset(s) == multiset(r) { SortIgnoresOrder(below, s, r); }
  }

  /** A class whose members are all the same element is that element, as often as it occurs. */
  lemma {:induction false} ClassIsCopies<T(!new)>(below: (T, T) -> bool, s: seq<T>, x: T, y: T)
    requires below(x, y) && below(y, x)
    requires forall z :: z in s && below(x, z) && below(z, x) ==> z == y
    ensures Class(below, s, x) == seq(multiset(s)[y], _ => y)
  {
    if s != [] {
      ClassIsCopies(below, s[1..], x, y);
      assert s == [s[0]] + s[1..];
    }
  }

  /** Elements that rank the same are the same element. */
  ghost predicate Uniform<T>(below: (T, T) -> bool, s: seq<T>) {
    forall y, z :: y in s && z in s && below(y, z) && below(z, y) ==> y == z
  }

  lemma UniformByIndex<T(!new)>(below: (T, T) -> bool, s: seq<T>)
    requires forall i, j :: 0 <= i < |s| && 0 <= j < |s| && below(s[i], s[j]) && below(s[j], s[i]) ==> s[i] == s[j]
    ensures Uniform(below, s)
  {
  }

  /** Without ties between different elements the order of the input does not matter. */
  lemma SortIgnoresOrder<T(!new)>(below: (T, T) -> bool, s: seq<T>, r: seq<T>)
    requires TotalPreorder(below) && Uniform(below, s) && multiset(s) == multiset(r)
    ensures Sort(below, s) == Sort(below, r)
  {
    forall y ensures y in s <==> y in r { assert y in multiset(s) <==> y in multiset(r); }
    forall x ensures Class(below, s, x) == Class(below, r, x) {
      ClassMember(below, s, x);
      ClassMember(below, r, x);
      if Class(below, s, x) != [] {
        var y := Class(below, s, x)[0];
        ClassIsCopies(below, s, x, y);
        ClassIsCopies(below, r, x, y);
      } else if Class(below, r, x) != [] {
        var y := Class(below, r, x)[0];
        assert y in s && below(y, x);
        ClassHasMember(below, s, x, y);
      }
    }
    SortIsStable(below, s);
    SortIsStable(below, r);
    forall x ensures Class(below, Sort(below, s), x) == Class(below, Sort(below, r), x) {
      assert Class(below, s, x) == Class(below, Sort(below, s), x);
      assert Class(below, r, x) == Class(below, Sort(below, r), x);
    }
    StableSortUnique(below, Sort(below, s), Sort(below, r));
  }

  lemma {:induction false} ClassHasMember<T(!new)>(below: (T, T) -> bool, s: seq<T>, x: T, y: T)
    requires y in s && below(x, y) && below(y, x)
    ensures y in Class(below, s, x)
  {
    if s[0] != y { ClassHasMember(below, s[1..], x, y); }
  }

  /** Sorting a sorted sequence changes nothing. */
  lemma SortOfSorted<T(!new)>(below: (T, T) -> bool, s: seq<T>)
    requires TotalPreorder(below) && Sorted(below, s)
    ensures Sort(below, s) == s
  {
    SortIsStable(below, s);
    StableSortUnique(below, Sort(below, s), s);
  }
}
