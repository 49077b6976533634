/** Mapping a list, and a loop that maps until the first failure. */
module Sequences {
  import opened Wrappers

  function Map<A, B>(f: A -> B, s: seq<A>): (r: seq<B>)
    ensures |r| == |s| && forall i :: 0 <= i < |s| ==> r[i] == f(s[i])
  {
    if s == [] then [] else [f(s[0])] + Map(f, s[1..])
  }

  lemma MapStep<A, B>(f: A -> B, s: seq<A>, i: nat)
    requires i < |s|
    ensures Map(f, s[..i + 1]) == Map(f, s[..i]) + [f(s[i])]
  {
  }

  lemma MapPlus<A, B>(f: A -> B, s: seq<A>, r: seq<A>)
    ensures Map(f, s + r) == Map(f, s) + Map(f, r)
  {
  }

  lemma InMap<A(!new), B>(f: A -> B, s: seq<A>, y: B)
    ensures y in Map(f, s) <==> exists x :: x in s && f(x) == y
  {
    if y in Map(f, s) {
      var i :| 0 <= i < |s| && Map(f, s)[i] == y;
      assert s[i] in s && f(s[i]) == y;
    }
    if x :| x in s && f(x) == y {
      var i :| 0 <= i < |s| && s[i] == x;
      assert Map(f, s)[i] == y;
    }
  }

  function Without<T>(s: seq<T>, j: nat): seq<T>
    requires j < |s|
  {
    s[..j] + s[j + 1..]
  }

  lemma WithoutMultiset<T>(s: seq<T>, j: nat)
    requires j < |s|
    ensures multiset(s) == multiset(Without(s, j)) + multiset{s[j]}
    ensures multiset(Without(s, j)) == multiset(s) - multiset{s[j]}
  {
    assert s == s[..j] + [s[j]] + s[j + 1..];
  }

  lemma WithoutAt<T>(s: seq<T>, j: nat, i: nat)
    requires j < |s| && i < |s| - 1
    ensures Without(s, j)[i] == if i < j then s[i] else s[i + 1]
  {
  }

  lemma MapOfWithout<A, B>(f: A -> B, s: seq<A>, j: nat)
    requires j < |s|
    ensures Map(f, Without(s, j)) == Without(Map(f, s), j)
  {
    var mapped, less := Map(f, Without(s, j)), Without(Map(f, s), j);
    forall i | 0 <= i < |s| - 1 ensures mapped[i] == less[i] {
      WithoutAt(s, j, i);
      WithoutAt(Map(f, s), j, i);
    }
  }

  lemma MapWithout<A, B>(f: A -> B, s: seq<A>, j: nat)
    requires j < |s|
    ensures multiset(Map(f, s)) == multiset(Map(f, Without(s, j))) + multiset{f(s[j])}
  {
    MapOfWithout(f, s, j);
    WithoutMultiset(Map(f, s), j);
  }

  /** Mapping a permutation gives a permutation. */
  lemma {:induction false} MapMultiset<A, B>(f: A -> B, s: seq<A>, r: seq<A>)
    requires multiset(s) == multiset(r)
    ensures multiset(Map(f, s)) == multiset(Map(f, r))
  {
    if s == [] {
      assert |multiset(r)| == 0 && r == [];
    } else {
      assert s[0] in multiset(r);
      var j :| 0 <= j < |r| && r[j] == s[0];
      WithoutMultiset(s, 0);
      WithoutMultiset(r, j);
      MapMultiset(f, Without(s, 0), Without(r, j));
      MapWithout(f, s, 0);
      MapWithout(f, r, j);
    }
  }

  /** Taking elements with one image out of both lists, or putting them back, keeps the images alike. */
  lemma WithoutBoth<A, B>(f: A -> B, s: seq<A>, i: nat, r: seq<A>, j: nat)
    requires i < |s| && j < |r| && f(s[i]) == f(r[j])
    ensures multiset(Map(f, s)) == multiset(Map(f, r)) <==>
            multiset(Map(f, Without(s, i))) == multiset(Map(f, Without(r, j)))
  {
    MapWithout(f, s, i);
    MapWithout(f, r, j);
    CancelOne(multiset(Map(f, Without(s, i))), multiset(Map(f, Without(r, j))), f(s[i]));
  }

  lemma CancelOne<T>(a: multiset<T>, b: multiset<T>, x: T)
    ensures a + multiset{x} == b + multiset{x} <==> a == b
  {
    assert a + multiset{x} - multiset{x} == a && b + multiset{x} - multiset{x} == b;
  }

  lemma ImageAt<A, B>(g: A -> B, s: seq<A>, r: seq<A>) returns (j: nat)
    requires s != [] && multiset(Map(g, s)) == multiset(Map(g, r))
    ensures j < |r| && g(r[j]) == g(s[0])
  {
    assert Map(g, s)[0] in multiset(Map(g, r));
    j :| 0 <= j < |r| && Map(g, r)[j] == Map(g, s)[0];
  }

  lemma WithoutMembers<T>(s: seq<T>, j: nat, x: T)
    requires j < |s| && x in Without(s, j)
    ensures x in s
  {
  }

  /** Where `f` tells no more apart than `g`, lists that `g` maps to the same values are mapped so by `f`. */
  lemma CoarserWithout<A(!new), B, C>(f: A -> B, g: A -> C, s: seq<A>, r: seq<A>, j: nat)
    requires s != [] && j < |r| && forall x, y :: x in s && y in r && g(x) == g(y) ==> f(x) == f(y)
    ensures forall x, y :: x in Without(s, 0) && y in Without(r, j) && g(x) == g(y) ==> f(x) == f(y)
  {
    forall x, y | x in Without(s, 0) && y in Without(r, j) && g(x) == g(y) ensures f(x) == f(y) {
      WithoutMembers(s, 0, x);
      WithoutMembers(r, j, y);
    }
  }

  lemma {:induction false} CoarserMultiset<A(!new), B, C>(f: A -> B, g: A -> C, s: seq<A>, r: seq<A>)
    requires forall x, y :: x in s && y in r && g(x) == g(y) ==> f(x) == f(y)
    requires multiset(Map(g, s)) == multiset(Map(g, r))
    ensures multiset(Map(f, s)) == multiset(Map(f, r))
  {
    if s == [] {
      assert |multiset(Map(g, r))| == 0 && r == [];
    } else {
      var j := ImageAt(g, s, r);
      WithoutBoth(g, s, 0, r, j);
      CoarserWithout(f, g, s, r, j);
      CoarserMultiset(f, g, Without(s, 0), Without(r, j));
      WithoutBoth(f, s, 0, r, j);
    }
  }

  /** `f` of every element in order, or the failure of the first element that has one. */
  function Traverse<A, B, E>(f: A -> Result<B, E>, s: seq<A>): (r: Result<seq<B>, E>)
    ensures r.Ok? ==> |r.value| == |s|
  {
    if s == [] then Ok([])
    else
      var front := Traverse(f, s[..|s| - 1]);
      var last := f(s[|s| - 1]);
      if front.Err? then front
      else if last.Err? then Err(last.reason)
      else Ok(front.value + [last.value])
  }

  lemma {:induction false} TraverseElementwise<A, B, E>(f: A -> Result<B, E>, s: seq<A>)
    ensures Traverse(f, s).Ok? <==> forall i :: 0 <= i < |s| ==> f(s[i]).Ok?
    ensures Traverse(f, s).Ok? ==> forall i :: 0 <= i < |s| ==> f(s[i]) == Ok(Traverse(f, s).value[i])
  {
    if s != [] {
      var n := |s| - 1;
      TraverseElementwise(f, s[..n]);
      assert forall i :: 0 <= i < n ==> s[..n][i] == s[i];
      assert (forall i :: 0 <= i < |s| ==> f(s[i]).Ok?) <==>
             (forall i :: 0 <= i < n ==> f(s[..n][i]).Ok?) && f(s[n]).Ok?;
    }
  }

  /** A failure of a prefix is the failure of the whole: the loop may stop at it. */
  lemma {:induction false} TraverseStops<A, B, E>(f: A -> Result<B, E>, s: seq<A>, n: nat)
    requires n <= |s|
    ensures Traverse(f, s[..n]).Err? ==> Traverse(f, s) == Traverse(f, s[..n])
    decreases |s|
  {
    if n < |s| {
      TraverseStops(f, s[..|s| - 1], n);
      assert s[..|s| - 1][..n] == s[..n];
    } else {
      assert s[..n] == s;
    }
  }

  /** One round of the loop. */
  lemma TraverseStep<A, B, E>(f: A -> Result<B, E>, s: seq<A>, n: nat)
    requires n < |s| && Traverse(f, s[..n]).Ok?
    ensures Traverse(f, s[..n + 1]) ==
            match f(s[n]) case Ok(b) => Ok(Traverse(f, s[..n]).value + [b]) case Err(e) => Err(e)
    ensures f(s[n]).Err? ==> Traverse(f, s) == Err(f(s[n]).reason)
  {
    assert s[..n + 1][..n] == s[..n];
    TraverseStops(f, s, n + 1);
  }

  lemma {:induction false} TraverseCongruent<A, B, E>(f: A -> Result<B, E>, s: seq<A>, r: seq<A>)
    requires |s| == |r| && forall i :: 0 <= i < |s| ==> f(s[i]) == f(r[i])
    ensures Traverse(f, s) == Traverse(f, r)
  {
    if s != [] { TraverseCongruent(f, s[..|s| - 1], r[..|s| - 1]); }
  }

  /** What holds of all elements holds of all elements of a permutation. */
  lemma AllOfPermutation<T>(s: seq<T>, r: seq<T>, p: T -> bool)
    requires multiset(s) == multiset(r)
    ensures (forall i :: 0 <= i < |s| ==> p(s[i])) <==> (forall i :: 0 <= i < |r| ==> p(r[i]))
  {
    if forall i :: 0 <= i < |s| ==> p(s[i]) {
      forall i | 0 <= i < |r| ensures p(r[i]) { assert r[i] in multiset(s); }
    }
    if forall i :: 0 <= i < |r| ==> p(r[i]) {
      forall i | 0 <= i < |s| ensures p(s[i]) { assert s[i] in multiset(r); }
    }
  }

  predicate Distinct<T(==)>(s: seq<T>) {
    forall i, j :: 0 <= i < j < |s| ==> s[i] != s[j]
  }

  lemma {:induction false} DistinctOnce<T>(s: seq<T>, x: T)
    requires Distinct(s)
    ensures multiset(s)[x] == if x in s then 1 else 0
  {
    if s != [] {
      DistinctOnce(s[1..], x);
      assert s == [s[0]] + s[1..];
      if x == s[0] { assert x !in s[1..]; }
    }
  }

  lemma DistinctMultiset<T>(s: seq<T>, r: seq<T>)
    requires multiset(s) == multiset(r) && Distinct(s)
    ensures Distinct(r)
  {
    forall i, j | 0 <= i < j < |r| ensures r[i] != r[j] {
      if r[i] == r[j] {
        assert r == r[..i] + [r[i]] + r[i + 1..j] + [r[j]] + r[j + 1..];
        assert multiset(r)[r[i]] >= 2;
        DistinctOnce(s, r[i]);
      }
    }
  }

  /** The permutations of a list without repeats are the lists without repeats that have its members. */
  lemma SameMembers<T(!new)>(s: seq<T>, r: seq<T>)
    requires Distinct(s)
    ensures multiset(s) == multiset(r) <==> Distinct(r) && forall x :: x in r <==> x in s
  {
    if multiset(s) == multiset(r) {
      DistinctMultiset(s, r);
      forall x ensures x in r <==> x in s { assert x in multiset(r) <==> x in multiset(s); }
    }
    if Distinct(r) && forall x :: x in r <==> x in s {
      forall x ensures multiset(s)[x] == multiset(r)[x] { DistinctOnce(s, x); DistinctOnce(r, x); }
    }
  }

  lemma DistinctStep<T>(s: seq<T>, i: nat)
    requires i < |s| && Distinct(s[..i])
    ensures Distinct(s[..i + 1]) <==> s[i] !in s[..i]
    ensures s[i] in s[..i] ==> !Distinct(s)
  {
    if s[i] in s[..i] {
      var j :| 0 <= j < i && s[..i][j] == s[i];
      assert s[..i + 1][j] == s[..i + 1][i] && s[j] == s[i];
    }
  }

  /** Comparing each element with the set of those seen before. */
  method IsDistinct<T(==)>(s: seq<T>) returns (distinct: bool)
    ensures distinct <==> Distinct(s)
  {
    var seen: set<T> := {};
    for i := 0 to |s|
      invariant Distinct(s[..i]) && seen == set x | x in s[..i]
    {
      DistinctStep(s, i);
      if s[i] in seen { return false; }
      assert s[..i + 1] == s[..i] + [s[i]];
      seen := seen + {s[i]};
    }
    assert s[..|s|] == s;
    distinct := true;
  }

  /** The list without the items that occurred before. */
  function FirstSeen<T(==,!new)>(s: seq<T>): (r: seq<T>)
    ensures Distinct(r) && (forall x :: x in r <==> x in s) && |r| <= |s|
  {
    if s == [] then []
    else
      var r := FirstSeen(s[..|s| - 1]);
      if s[|s| - 1] in r then r else r + [s[|s| - 1]]
  }

  lemma FirstSeenStep<T(!new)>(before: seq<T>, x: T)
    ensures FirstSeen(before + [x]) == if x in FirstSeen(before) then FirstSeen(before) else FirstSeen(before) + [x]
  {
    assert (before + [x])[..|before|] == before;
  }

  function Position<T(==)>(s: seq<T>, x: T): (i: nat)
    requires x in s
    ensures i < |s| && s[i] == x && x !in s[..i]
  {
    if s[0] == x then 0 else Position(s[1..], x) + 1
  }

  lemma PositionInFront<T>(s: seq<T>, front: seq<T>, x: T)
    requires front <= s && x in front
    ensures Position(s, x) == Position(front, x)
  {
    var i, j := Position(s, x), Position(front, x);
    assert forall k :: 0 <= k < j ==> front[..j][k] == s[k] != x;
    assert forall k :: 0 <= k < i ==> s[..i][k] == s[k] != x;
  }

  /** The items come in the order of their first occurrences. */
  lemma {:induction false} FirstSeenInOrder<T(!new)>(s: seq<T>, i: nat, j: nat)
    requires i < j < |FirstSeen(s)|
    ensures Position(s, FirstSeen(s)[i]) < Position(s, FirstSeen(s)[j])
  {
    var front := s[..|s| - 1];
    var r := FirstSeen(front);
    assert r <= FirstSeen(s);
    assert r[i] in front;
    PositionInFront(s, front, r[i]);
    if j < |r| {
      assert r[j] in front;
      FirstSeenInOrder(front, i, j);
      PositionInFront(s, front, r[j]);
    }
  }

  lemma {:induction false} FirstSeenFixed<T(!new)>(s: seq<T>)
    ensures FirstSeen(s) == s <==> Distinct(s)
  {
    if s != [] {
      var front := s[..|s| - 1];
      if Distinct(s) {
        FirstSeenFixed(front);
        assert s == front + [s[|s| - 1]];
      }
    }
  }
}
