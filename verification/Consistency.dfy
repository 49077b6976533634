/** Agreement statistics of repeated runs, before rounding. Scores are exact rationals. */
module Consistency {
  import opened Wrappers
  import opened Sequences

  // ---- the mode and its share ----------------------------------------------------------------------------

  function Times<T(==)>(s: seq<T>, x: T): nat { multiset(s)[x] }

  ghost predicate Counted<T(!new)>(counts: map<T, nat>, s: seq<T>) {
    forall x :: (x in counts <==> x in s) && (x in counts ==> counts[x] == Times(s, x))
  }

  lemma CountedStep<T(!new)>(counts: map<T, nat>, s: seq<T>, v: T)
    requires Counted(counts, s)
    ensures Counted(Bumped(counts, v), s + [v])
  {
    assert multiset(s + [v]) == multiset(s) + multiset{v};
  }

  function Bumped<T(==)>(counts: map<T, nat>, v: T): map<T, nat> {
    counts[v := (if v in counts then counts[v] else 0) + 1]
  }

  ghost predicate Tally<T(!new)>(counts: map<T, nat>, order: seq<T>, s: seq<T>) {
    Counted(counts, s) && order == FirstSeen(s)
  }

  lemma TallyStep<T(!new)>(counts: map<T, nat>, order: seq<T>, values: seq<T>, i: nat)
    requires i < |values| && Tally(counts, order, values[..i])
    ensures var longer := if values[i] in counts then order else order + [values[i]];
            Tally(Bumped(counts, values[i]), longer, values[..i + 1])
  {
    assert values[..i + 1] == values[..i] + [values[i]];
    FirstSeenStep(values[..i], values[i]);
    CountedStep(counts, values[..i], values[i]);
  }

  /** Counting into a dictionary; the keys stay in the order in which they came. */
  method Count<T(==,!new)>(values: seq<T>) returns (counts: map<T, nat>, order: seq<T>)
    ensures Tally(counts, order, values)
  {
    counts, order := map[], [];
    for i := 0 to |values|
      invariant Tally(counts, order, values[..i])
    {
      TallyStep(counts, order, values, i);
      if values[i] !in counts { order := order + [values[i]]; }
      counts := Bumped(counts, values[i]);
    }
    assert values[..|values|] == values;
  }

  /** The first key with the largest count. */
  method Mode<T(==,!new)>(values: seq<T>) returns (mode: Option<T>)
    ensures mode.None? <==> values == []
    ensures mode.Some? ==> IsMode(values, mode.value)
  {
    if values == [] { return None; }
    var counts, order := Count(values);
    assert values[0] in order;
    var best := 0;
    for k := 1 to |order|
      invariant best < k
      invariant forall j :: 0 <= j < k ==> Times(values, order[j]) <= Times(values, order[best])
      invariant forall j :: 0 <= j < best ==> Times(values, order[j]) < Times(values, order[best])
    {
      assert order[k] in counts && order[best] in counts;
      if counts[order[k]] > counts[order[best]] { best := k; }
    }
    ModeFound(values, best);
    mode := Some(order[best]);
  }

  /** The most frequent value; of those as frequent, the one that comes first. */
  ghost predicate IsMode<T(!new)>(values: seq<T>, mode: T) {
    && mode in values
    && forall x :: x in values ==>
         Times(values, x) < Times(values, mode)
         || (Times(values, x) == Times(values, mode) && Position(values, mode) <= Position(values, x))
  }

  lemma ModeFound<T(!new)>(values: seq<T>, best: nat)
    requires best < |FirstSeen(values)|
    requires forall j :: 0 <= j < |FirstSeen(values)| ==>
               Times(values, FirstSeen(values)[j]) <= Times(values, FirstSeen(values)[best])
    requires forall j :: 0 <= j < best ==> Times(values, FirstSeen(values)[j]) < Times(values, FirstSeen(values)[best])
    ensures IsMode(values, FirstSeen(values)[best])
  {
    var order := FirstSeen(values);
    forall x | x in values
      ensures Times(values, x) < Times(values, order[best])
              || (&& Times(values, x) == Times(values, order[best])
                  && Position(values, order[best]) <= Position(values, x))
    {
      assert x in order;
      var j :| 0 <= j < |order| && order[j] == x;
      if j > best { FirstSeenInOrder(values, best, j); }
    }
  }

  lemma ModeUnique<T(!new)>(values: seq<T>, a: T, b: T)
    requires IsMode(values, a) && IsMode(values, b)
    ensures a == b
  {
    assert values[Position(values, a)] == a && values[Position(values, b)] == b;
  }

  /** An exact fraction. */
  datatype Fraction = Fraction(count: nat, of: nat)

  predicate AtMost(x: Fraction, y: Fraction) { x.count * y.of <= y.count * x.of }

  predicate IsOne(x: Fraction) { x.count == x.of }

  /** The share of a value among all. */
  function Share<T(==)>(values: seq<T>, mode: T): Fraction
    requires values != []
  {
    Fraction(Times(values, mode), |values|)
  }

  lemma MulOrder(a: nat, b: nat, n: nat)
    requires a <= b
    ensures a * n <= b * n
  {
  }

  lemma {:induction false} TimesAtMost<T>(s: seq<T>, x: T)
    ensures Times(s, x) <= |s|
    ensures Times(s, x) == |s| <==> forall i :: 0 <= i < |s| ==> s[i] == x
  {
    if s != [] {
      TimesAtMost(s[1..], x);
      assert s == [s[0]] + s[1..];
      assert (forall i :: 0 <= i < |s| ==> s[i] == x) <==>
             s[0] == x && (forall i :: 0 <= i < |s[1..]| ==> s[1..][i] == x);
    }
  }

  /** The mode's share is the largest of any value, and it is one exactly when all values are equal. */
  lemma ShareOfMode<T(!new)>(values: seq<T>, mode: T, x: T)
    requires IsMode(values, mode)
    ensures AtMost(Share(values, x), Share(values, mode))
    ensures IsOne(Share(values, mode)) <==>
            forall i, j :: 0 <= i < |values| && 0 <= j < |values| ==> values[i] == values[j]
  {
    TimesAtMost(values, mode);
    if x !in values { assert Times(values, x) == 0; }
    MulOrder(Times(values, x), Times(values, mode), |values|);
  }

  // ---- pairwise differences ------------------------------------------------------------------------------

  function Abs(x: real): real { if x < 0.0 then -x else x }

  function FoldMax(s: seq<real>): (r: real)
    requires s != []
    ensures r in s && forall i :: 0 <= i < |s| ==> s[i] <= r
  {
    if |s| == 1 then s[0]
    else
      var m := FoldMax(s[..|s| - 1]);
      assert forall i :: 0 <= i < |s| - 1 ==> s[..|s| - 1][i] == s[i];
      if s[|s| - 1] > m then s[|s| - 1] else m
  }

  function FoldMin(s: seq<real>): (r: real)
    requires s != []
    ensures r in s && forall i :: 0 <= i < |s| ==> r <= s[i]
  {
    if |s| == 1 then s[0]
    else
      var m := FoldMin(s[..|s| - 1]);
      assert forall i :: 0 <= i < |s| - 1 ==> s[..|s| - 1][i] == s[i];
      if s[|s| - 1] < m then s[|s| - 1] else m
  }

  function Differences(a: real, rest: seq<real>): seq<real> { Map(b => Abs(a - b), rest) }

  /** The difference of every two runs: each run against all later ones. */
  function Pairwise(scores: seq<real>): seq<real> {
    if scores == [] then [] else Differences(scores[0], scores[1..]) + Pairwise(scores[1..])
  }

  function MaxPairwise(scores: seq<real>): real { if Pairwise(scores) == [] then 0.0 else FoldMax(Pairwise(scores)) }

  function Sum(s: seq<real>): real { if s == [] then 0.0 else s[0] + Sum(s[1..]) }

  function Mean(s: seq<real>): real
    requires s != []
  {
    Sum(s) / |s| as real
  }

  function MeanPairwise(scores: seq<real>): real { if Pairwise(scores) == [] then 0.0 else Mean(Pairwise(scores)) }

  lemma DifferenceMembers(a: real, rest: seq<real>, j: nat)
    requires j < |rest|
    ensures Abs(a - rest[j]) in Differences(a, rest)
  {
    assert Differences(a, rest)[j] == Abs(a - rest[j]);
  }

  lemma PairwiseOfRest(scores: seq<real>, d: real)
    requires scores != [] && d in Pairwise(scores[1..])
    ensures d in Pairwise(scores)
  {
  }

  lemma {:induction false} PairwiseMembers(scores: seq<real>, i: nat, j: nat)
    requires i < j < |scores|
    ensures Abs(scores[i] - scores[j]) in Pairwise(scores)
  {
    if i == 0 {
      DifferenceMembers(scores[0], scores[1..], j - 1);
    } else {
      PairwiseMembers(scores[1..], i - 1, j - 1);
      PairwiseOfRest(scores, Abs(scores[i] - scores[j]));
    }
  }

  predicate Within(s: seq<real>, lo: real, hi: real) { forall i :: 0 <= i < |s| ==> lo <= s[i] <= hi }

  lemma DifferencesBounded(a: real, rest: seq<real>, lo: real, hi: real)
    requires lo <= a <= hi && Within(rest, lo, hi)
    ensures Within(Differences(a, rest), 0.0, hi - lo)
  {
    forall i | 0 <= i < |rest| ensures 0.0 <= Differences(a, rest)[i] <= hi - lo {
      assert Differences(a, rest)[i] == Abs(a - rest[i]);
    }
  }

  lemma {:induction false} PairwiseBounded(scores: seq<real>, lo: real, hi: real)
    requires Within(scores, lo, hi)
    ensures Within(Pairwise(scores), 0.0, hi - lo)
  {
    if scores != [] {
      assert forall i :: 0 <= i < |scores| - 1 ==> scores[1..][i] == scores[i + 1];
      PairwiseBounded(scores[1..], lo, hi);
      DifferencesBounded(scores[0], scores[1..], lo, hi);
    }
  }

  lemma PairwiseStep(scores: seq<real>)
    requires scores != []
    ensures |Pairwise(scores)| == |scores| - 1 + |Pairwise(scores[1..])|
  {
  }

  lemma Triangle(n: nat, pairs: nat)
    requires n > 0 && 2 * pairs == (n - 1) * (n - 2)
    ensures 2 * (n - 1 + pairs) == n * (n - 1)
  {
  }

  /** n runs are compared in n(n-1)/2 pairs. */
  lemma {:induction false} PairwiseSize(scores: seq<real>)
    ensures 2 * |Pairwise(scores)| == |scores| * (|scores| - 1)
  {
    if scores != [] {
      PairwiseSize(scores[1..]);
      PairwiseStep(scores);
      Triangle(|scores|, |Pairwise(scores[1..])|);
    }
  }

  lemma MaxIs(s: seq<real>, m: real)
    requires m in s && forall i :: 0 <= i < |s| ==> s[i] <= m
    ensures FoldMax(s) == m
  {
    var i :| 0 <= i < |s| && s[i] == FoldMax(s);
    var j :| 0 <= j < |s| && s[j] == m;
    assert s[i] <= m && s[j] <= FoldMax(s);
  }

  lemma AbsSymmetric(a: real, b: real)
    ensures Abs(a - b) == Abs(b - a)
  {
  }

  lemma TwoDiffer(scores: seq<real>, i: nat, j: nat)
    requires i < |scores| && j < |scores| && i != j && scores[j] <= scores[i]
    ensures scores[i] - scores[j] in Pairwise(scores)
  {
    if i < j {
      PairwiseMembers(scores, i, j);
    } else {
      PairwiseMembers(scores, j, i);
      AbsSymmetric(scores[i], scores[j]);
    }
  }

  /** The range of at least two scores is one of the differences. */
  lemma RangeOccurs(scores: seq<real>, lo: real, hi: real)
    requires |scores| >= 2 && lo in scores && hi in scores && Within(scores, lo, hi)
    ensures hi - lo in Pairwise(scores)
  {
    var i :| 0 <= i < |scores| && scores[i] == hi;
    var j :| 0 <= j < |scores| && scores[j] == lo;
    if i != j {
      TwoDiffer(scores, i, j);
    } else {
      assert scores[0] == hi == lo == scores[1];
      TwoDiffer(scores, 0, 1);
    }
  }

  lemma MaxPairwiseFrom(scores: seq<real>, lo: real, hi: real)
    requires |scores| >= 2 && lo in scores && hi in scores && Within(scores, lo, hi)
    ensures MaxPairwise(scores) == hi - lo
  {
    RangeOccurs(scores, lo, hi);
    PairwiseBounded(scores, lo, hi);
    MaxIs(Pairwise(scores), hi - lo);
  }

  /** The largest pairwise difference is the range of the scores. */
  lemma MaxPairwiseIsRange(scores: seq<real>)
    requires scores != []
    ensures MaxPairwise(scores) == FoldMax(scores) - FoldMin(scores)
  {
    if |scores| >= 2 {
      MaxPairwiseFrom(scores, FoldMin(scores), FoldMax(scores));
    } else {
      assert Pairwise(scores[1..]) == [] && Differences(scores[0], scores[1..]) == [];
    }
  }

  lemma {:induction false} SumBound(s: seq<real>, m: real)
    requires Within(s, 0.0, m)
    ensures 0.0 <= Sum(s) <= m * |s| as real
  {
    if s != [] {
      assert forall i :: 0 <= i < |s| - 1 ==> s[1..][i] == s[i + 1];
      SumBound(s[1..], m);
      assert m * |s| as real == m + m * (|s| - 1) as real;
    }
  }

  lemma MeanBound(sum: real, m: real, n: nat)
    requires n > 0 && 0.0 <= sum <= m * n as real
    ensures 0.0 <= sum / n as real <= m
  {
  }

  lemma MeanWithin(d: seq<real>, bound: real)
    requires d != [] && Within(d, 0.0, bound)
    ensures 0.0 <= Mean(d) <= FoldMax(d)
  {
    SumBound(d, FoldMax(d));
    MeanBound(Sum(d), FoldMax(d), |d|);
  }

  /** The largest difference bounds the mean one. */
  lemma MeanBelowMax(scores: seq<real>)
    ensures 0.0 <= MeanPairwise(scores) <= MaxPairwise(scores)
  {
    if Pairwise(scores) != [] {
      PairwiseBounded(scores, FoldMin(scores), FoldMax(scores));
      MeanWithin(Pairwise(scores), FoldMax(scores) - FoldMin(scores));
    }
  }

  // ---- the mean difference -----------------------------------------------------------------------------

  lemma {:induction false} SumPlus(s: seq<real>, r: seq<real>)
    ensures Sum(s + r) == Sum(s) + Sum(r)
  {
    if s == [] {
      assert s + r == r;
    } else {
      SumPlus(s[1..], r);
      assert (s + r)[1..] == s[1..] + r;
    }
  }

  /** How far a value is from the first `n` scores, added up. */
  function Distances(scores: seq<real>, n: nat, x: real): real
    requires n <= |scores|
  {
    if n == 0 then 0.0
    else
      var d := scores[n - 1] - x;
      Distances(scores, n - 1, x) + (if d < 0.0 then 0.0 - d else d)
  }

  /** All differences of a later score and an earlier one, added up score by score from the front. */
  function AllDistances(scores: seq<real>, n: nat): real
    requires n <= |scores|
  {
    if n == 0 then 0.0 else AllDistances(scores, n - 1) + Distances(scores, n - 1, scores[n - 1])
  }

  lemma {:induction false} DistancesLater(scores: seq<real>, n: nat, x: real)
    requires 1 <= n <= |scores|
    ensures Distances(scores, n, x) == Abs(scores[0] - x) + Distances(scores[1..], n - 1, x)
  {
    if n > 1 { DistancesLater(scores, n - 1, x); }
  }

  lemma {:induction false} AllDistancesLater(scores: seq<real>, n: nat)
    requires 1 <= n <= |scores|
    ensures AllDistances(scores, n) == Sum(Differences(scores[0], scores[1..n])) + AllDistances(scores[1..], n - 1)
  {
    if n == 1 {
      assert scores[1..1] == [];
    } else {
      AllDistancesLater(scores, n - 1);
      DistancesLater(scores, n - 1, scores[n - 1]);
      var last := [scores[n - 1]];
      assert scores[1..n] == scores[1..n - 1] + last;
      MapPlus(b => Abs(scores[0] - b), scores[1..n - 1], last);
      SumPlus(Differences(scores[0], scores[1..n - 1]), Differences(scores[0], last));
      assert Differences(scores[0], last) == [Abs(scores[0] - scores[n - 1])];
    }
  }

  lemma {:induction false} SumOfPairwise(scores: seq<real>)
    ensures Sum(Pairwise(scores)) == AllDistances(scores, |scores|)
  {
    if scores != [] {
      SumOfPairwise(scores[1..]);
      SumPlus(Differences(scores[0], scores[1..]), Pairwise(scores[1..]));
      AllDistancesLater(scores, |scores|);
      assert scores[1..|scores|] == scores[1..];
    }
  }

  /** The mean difference is the sum of all differences over the number of pairs. */
  lemma MeanExactly(scores: seq<real>)
    ensures MeanPairwise(scores) ==
            if |scores| < 2 then 0.0 else AllDistances(scores, |scores|) / |Pairwise(scores)| as real
  {
    SumOfPairwise(scores);
    if |scores| >= 2 {
      PairwiseStep(scores);
    } else if |scores| == 1 {
      assert Pairwise(scores[1..]) == [] && Differences(scores[0], scores[1..]) == [];
    }
  }

  /** Scores 1, 4, 2 differ by 3, 1 and 2. */
  lemma MeanOfThree()
    ensures MeanPairwise([1.0, 4.0, 2.0]) == 2.0 && MaxPairwise([1.0, 4.0, 2.0]) == 3.0
  {
    var s := [1.0, 4.0, 2.0];
    assert s[1..] == [4.0, 2.0] && s[1..][1..] == [2.0] && s[1..][1..][1..] == [];
    assert Pairwise([2.0]) == [];
    assert Differences(4.0, [2.0]) == [2.0] && Pairwise([4.0, 2.0]) == [2.0];
    assert Differences(1.0, [4.0, 2.0]) == [3.0, 1.0];
    assert Pairwise(s) == [3.0, 1.0, 2.0];
    assert Sum([2.0]) == 2.0 && Sum([1.0, 2.0]) == 3.0;
    MaxIs([3.0, 1.0, 2.0], 3.0);
  }
}
