/** Commit graphs: every commit is numbered after its parents, as pushing order guarantees. */
module CommitGraph {

  /** `g[c]` lists the parents of commit `c`. */
  predicate WellFounded(g: seq<seq<nat>>) {
    forall c, k :: 0 <= c < |g| && 0 <= k < |g[c]| ==> g[c][k] < c
  }

  /** Commit `a` is `c` or an ancestor of it. */
  predicate Reaches(g: seq<seq<nat>>, c: nat, a: nat)
    requires WellFounded(g) && c < |g|
    decreases c
  {
    c == a || exists k :: 0 <= k < |g[c]| && Reaches(g, g[c][k], a)
  }

  lemma {:induction false} AncestorsAreOlder(g: seq<seq<nat>>, c: nat, a: nat)
    requires WellFounded(g) && c < |g| && Reaches(g, c, a)
    ensures a <= c
    decreases c
  {
    if c != a {
      var k :| 0 <= k < |g[c]| && Reaches(g, g[c][k], a);
      AncestorsAreOlder(g, g[c][k], a);
    }
  }

  lemma {:induction false} ReachesTransitive(g: seq<seq<nat>>, c: nat, b: nat, a: nat)
    requires WellFounded(g) && c < |g| && b < |g| && Reaches(g, c, b) && Reaches(g, b, a)
    ensures Reaches(g, c, a)
    decreases c
  {
    if c != b {
      var k :| 0 <= k < |g[c]| && Reaches(g, g[c][k], b);
      ReachesTransitive(g, g[c][k], b, a);
    }
  }

  /** New commits do not change what old commits reach. */
  lemma {:induction false} ReachesStable(g: seq<seq<nat>>, h: seq<seq<nat>>, c: nat, a: nat)
    requires WellFounded(g) && WellFounded(h) && g <= h && c < |g|
    ensures Reaches(g, c, a) <==> Reaches(h, c, a)
    decreases c
  {
    assert g[c] == h[c];
    forall k | 0 <= k < |g[c]| ensures Reaches(g, g[c][k], a) <==> Reaches(h, g[c][k], a) {
      ReachesStable(g, h, g[c][k], a);
    }
  }

  /** Extending the graph by one commit. */
  lemma ExtendWellFounded(g: seq<seq<nat>>, parents: seq<nat>)
    requires WellFounded(g) && forall k :: 0 <= k < |parents| ==> parents[k] < |g|
    ensures WellFounded(g + [parents]) && g <= g + [parents]
  {
  }
}
