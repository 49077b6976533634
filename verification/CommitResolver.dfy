/** Finding the commit to deploy: the merge commit of the patch's branch, if the default branch holds it. */
module CommitResolver {
  import opened Text
  import opened Wrappers
  import opened CommitGraph
  import opened GitHub
  import opened PullRequest

  /** One page of pull requests: no more are looked at. */
  const MAX_PULL_REQUESTS: nat := 10

  datatype Error = OutOfScope | NoMergeCommit | ReadFailed

  /** GitHub's `compare/{base}...{head}`: where `head` stands relative to `base`. */
  datatype Comparison = Identical | Behind | Ahead | Diverged

  function Compare(g: seq<seq<nat>>, base: nat, head: nat): Comparison
    requires WellFounded(g) && base < |g| && head < |g|
  {
    if base == head then Identical
    else if Reaches(g, base, head) then Behind
    else if Reaches(g, head, base) then Ahead
    else Diverged
  }

  /** GET pulls?state=all&head=...: the pull requests of a branch, newest first. */
  function Listing(pulls: seq<Pull>, head: Str): seq<Pull> {
    if pulls == [] then []
    else
      var older := Listing(pulls[..|pulls| - 1], head);
      if pulls[|pulls| - 1].head == head then [pulls[|pulls| - 1]] + older else older
  }

  function Page(pulls: seq<Pull>, head: Str): seq<Pull> {
    var l := Listing(pulls, head);
    if |l| <= MAX_PULL_REQUESTS then l else l[..MAX_PULL_REQUESTS]
  }

  /** The verdict on one page: the first merged entry decides. */
  function FirstMerged(page: seq<Pull>): Result<Option<nat>, Error> {
    if page == [] then Ok(None)
    else match page[0].state
      case Merged(Some(c)) => Ok(Some(c))
      case Merged(None) => Err(NoMergeCommit)
      case _ => FirstMerged(page[1..])
  }

  method MergedCommit(page: seq<Pull>) returns (r: Result<Option<nat>, Error>)
    ensures r == FirstMerged(page)
  {
    for i := 0 to |page|
      invariant FirstMerged(page) == FirstMerged(page[i..])
    {
      if page[i].state.Merged? {
        match page[i].state.commit {
          case Some(c) => return Ok(Some(c));
          case None => return Err(NoMergeCommit);
        }
      }
    }
    r := Ok(None);
  }

  function Resolve(r: Repo, toolScope: Scope, requested: Scope, patchScope: Scope, head: Str)
    : Result<Option<nat>, Error>
    requires WellFormed(r)
  {
    if requested != toolScope || patchScope != requested then Err(OutOfScope)
    else
      var merged := FirstMerged(Page(r.pulls, head));
      if merged.Err? || merged.value.None? then merged
      else if r.defaultBranch !in r.refs || merged.value.value >= |r.graph| then Err(ReadFailed)
      else
        var status := Compare(r.graph, Head(r, r.defaultBranch), merged.value.value);
        Ok(if status.Identical? || status.Behind? then merged.value else None)
  }

  // ---- what the answer means -----------------------------------------------------------------------

  ghost function NewerOf(pulls: seq<Pull>, head: Str, i: nat): nat
    requires i < |pulls|
  {
    |Listing(pulls[i + 1..], head)|
  }

  /** Pull request `i` is the newest merged one of the branch and is on the first page. */
  ghost predicate NewestMerged(pulls: seq<Pull>, head: Str, i: nat) {
    && i < |pulls| && pulls[i].head == head && pulls[i].state.Merged?
    && (forall j :: i < j < |pulls| && pulls[j].head == head ==> !pulls[j].state.Merged?)
    && NewerOf(pulls, head, i) < MAX_PULL_REQUESTS
  }

  lemma {:induction false} ListingSplit(pulls: seq<Pull>, i: nat, head: Str)
    requires i <= |pulls|
    ensures Listing(pulls, head) == Listing(pulls[i..], head) + Listing(pulls[..i], head)
    decreases |pulls|
  {
    if i == |pulls| {
      assert pulls[i..] == [] && pulls[..i] == pulls;
    } else {
      var n := |pulls| - 1;
      ListingSplit(pulls[..n], i, head);
      assert pulls[..n][i..] == pulls[i..][..n - i] && pulls[..n][..i] == pulls[..i];
      assert pulls[i..][n - i] == pulls[n];
    }
  }

  lemma {:induction false} ListingMembers(pulls: seq<Pull>, head: Str)
    ensures forall p :: p in Listing(pulls, head) <==> p in pulls && p.head == head
  {
    if pulls != [] {
      ListingMembers(pulls[..|pulls| - 1], head);
      assert pulls == pulls[..|pulls| - 1] + [pulls[|pulls| - 1]];
    }
  }

  lemma {:induction false} FirstMergedSkips(unmerged: seq<Pull>, rest: seq<Pull>)
    requires forall k :: 0 <= k < |unmerged| ==> !unmerged[k].state.Merged?
    ensures FirstMerged(unmerged + rest) == FirstMerged(rest)
  {
    if unmerged == [] {
      assert unmerged + rest == rest;
    } else {
      FirstMergedSkips(unmerged[1..], rest);
      assert (unmerged + rest)[1..] == unmerged[1..] + rest;
    }
  }

  /** With a newest merged request on the page, the page decides by it. */
  lemma NewestMergedDecides(pulls: seq<Pull>, head: Str, i: nat)
    requires NewestMerged(pulls, head, i)
    ensures FirstMerged(Page(pulls, head)) ==
            match pulls[i].state.commit case Some(c) => Ok(Some(c)) case None => Err(NoMergeCommit)
  {
    var newer, older := Listing(pulls[i + 1..], head), Listing(pulls[..i], head);
    ListingSplit(pulls, i + 1, head);
    assert pulls[..i + 1][..i] == pulls[..i];
    assert Listing(pulls, head) == newer + ([pulls[i]] + older);
    ListingMembers(pulls[i + 1..], head);
    forall k | 0 <= k < |newer| ensures !newer[k].state.Merged? {
      assert newer[k] in newer && newer[k] in pulls[i + 1..];
      var j :| 0 <= j < |pulls[i + 1..]| && pulls[i + 1..][j] == newer[k];
      assert pulls[i + 1 + j] == newer[k];
    }
    var page := Page(pulls, head);
    var rest := page[|newer|..];
    assert page == newer + rest && rest[0] == pulls[i];
    FirstMergedSkips(newer, rest);
  }

  /** Without one, the page holds no merged request. */
  lemma NoNewestMerged(pulls: seq<Pull>, head: Str)
    requires forall i: nat :: !NewestMerged(pulls, head, i)
    ensures FirstMerged(Page(pulls, head)) == Ok(None)
  {
    var page := Page(pulls, head);
    forall k | 0 <= k < |page| ensures !page[k].state.Merged? {
      if page[k].state.Merged? {
        var _ := NewestOnPage(pulls, head, k);
        assert false;
      }
    }
    FirstMergedSkips(page, []);
    assert page + [] == page;
  }

  lemma {:induction false} NewestOnPage(pulls: seq<Pull>, head: Str, k: nat) returns (i: nat)
    requires k < |Listing(pulls, head)| && k < MAX_PULL_REQUESTS && Listing(pulls, head)[k].state.Merged?
    ensures NewestMerged(pulls, head, i)
  {
    // the newest pull request of the branch, or the newest merged among the older ones
    var n := |pulls| - 1;
    assert pulls[..n + 1] == pulls;
    if pulls[n].head == head && pulls[n].state.Merged? {
      i := n;
      assert pulls[n + 1..] == [];
    } else {
      var shift := if pulls[n].head == head then 1 else 0;
      i := NewestOnPageBelow(pulls, head, n, k, shift);
    }
  }

  lemma {:induction false} NewestOnPageBelow(pulls: seq<Pull>, head: Str, n: nat, k: nat, newer: nat) returns (i: nat)
    requires n <= |pulls| && newer == |Listing(pulls[n..], head)| && newer <= k < MAX_PULL_REQUESTS
    requires forall j :: n <= j < |pulls| && pulls[j].head == head ==> !pulls[j].state.Merged?
    requires k - newer < |Listing(pulls[..n], head)| && Listing(pulls[..n], head)[k - newer].state.Merged?
    ensures NewestMerged(pulls, head, i)
    decreases n
  {
    var m := n - 1;
    assert pulls[..n][..m] == pulls[..m] && pulls[..n][m] == pulls[m];
    ListingSplit(pulls[m..], 1, head);
    assert pulls[m..][1..] == pulls[n..] && pulls[m..][..1] == [pulls[m]];
    assert [pulls[m]][..0] == [];
    if pulls[m].head == head && pulls[m].state.Merged? {
      i := m;
    } else {
      i := NewestOnPageBelow(pulls, head, m, k, if pulls[m].head == head then newer + 1 else newer);
    }
  }

  lemma NewestUnique(pulls: seq<Pull>, head: Str, i: nat, j: nat)
    requires NewestMerged(pulls, head, i) && NewestMerged(pulls, head, j)
    ensures i == j
  {
  }

  /** The resolver answers with a commit exactly when it is the merge commit of the newest merged request
      of the branch and is the default branch's head or an ancestor of it. */
  lemma ResolvesExactly(r: Repo, scope: Scope, head: Str, c: nat)
    requires WellFormed(r)
    ensures Resolve(r, scope, scope, scope, head) == Ok(Some(c)) <==>
            && c < |r.graph| && r.defaultBranch in r.refs
            && (exists i: nat :: NewestMerged(r.pulls, head, i) && r.pulls[i].state == Merged(Some(c)))
            && Reaches(r.graph, Head(r, r.defaultBranch), c)
  {
    if i: nat :| NewestMerged(r.pulls, head, i) {
      NewestMergedDecides(r.pulls, head, i);
      forall j: nat | NewestMerged(r.pulls, head, j) ensures i == j { NewestUnique(r.pulls, head, i, j); }
    } else {
      NoNewestMerged(r.pulls, head);
    }
  }

  /** A known commit that the default branch does not contain. */
  ghost predicate OffDefault(r: Repo, commit: Option<nat>)
    requires WellFormed(r)
  {
    && commit.Some? && r.defaultBranch in r.refs && commit.value < |r.graph|
    && !Reaches(r.graph, Head(r, r.defaultBranch), commit.value)
  }

  /** No commit at all: nothing merged yet, or the merge commit has left the default branch. */
  lemma ResolvesToNothing(r: Repo, scope: Scope, head: Str)
    requires WellFormed(r)
    ensures Resolve(r, scope, scope, scope, head) == Ok(None) <==>
            || (forall i: nat :: !NewestMerged(r.pulls, head, i))
            || (exists i: nat :: NewestMerged(r.pulls, head, i) && OffDefault(r, r.pulls[i].state.commit))
  {
    if i: nat :| NewestMerged(r.pulls, head, i) {
      NewestMergedDecides(r.pulls, head, i);
      forall j: nat | NewestMerged(r.pulls, head, j) ensures i == j { NewestUnique(r.pulls, head, i, j); }
    } else {
      NoNewestMerged(r.pulls, head);
    }
  }

  /** A request outside the approved scope, or for a patch outside it, reads nothing. */
  lemma OutOfScopeRefused(r: Repo, toolScope: Scope, requested: Scope, patchScope: Scope, head: Str)
    requires WellFormed(r)
    ensures Resolve(r, toolScope, requested, patchScope, head) == Err(OutOfScope) <==>
            !(patchScope == requested == toolScope)
  {
    var merged := FirstMerged(Page(r.pulls, head));
    NeverOutOfScope(Page(r.pulls, head));
  }

  lemma {:induction false} NeverOutOfScope(page: seq<Pull>)
    ensures FirstMerged(page) != Err(OutOfScope)
  {
    if page != [] { NeverOutOfScope(page[1..]); }
  }

  /** The default branch has moved only forward, and no commit was deleted. */
  ghost predicate DefaultAdvances(r: Repo, r': Repo) {
    && WellFormed(r) && WellFormed(r') && r.graph <= r'.graph
    && r'.defaultBranch == r.defaultBranch && r.defaultBranch in r.refs && r.defaultBranch in r'.refs
    && Reaches(r'.graph, Head(r', r.defaultBranch), Head(r, r.defaultBranch))
  }

  /** The answer is stable: while the default branch only advances and the newest merged request stays
      the same, so does the resolved commit. */
  lemma ResolutionStable(r: Repo, r': Repo, scope: Scope, head: Str, c: nat, i: nat)
    requires DefaultAdvances(r, r') && Resolve(r, scope, scope, scope, head) == Ok(Some(c))
    requires NewestMerged(r.pulls, head, i) && NewestMerged(r'.pulls, head, i) && r'.pulls[i].state == r.pulls[i].state
    ensures Resolve(r', scope, scope, scope, head) == Ok(Some(c))
  {
    ResolvesExactly(r, scope, head, c);
    var j: nat :| NewestMerged(r.pulls, head, j) && r.pulls[j].state == Merged(Some(c));
    NewestUnique(r.pulls, head, i, j);
    ReachesStable(r.graph, r'.graph, Head(r, r.defaultBranch), c);
    ReachesTransitive(r'.graph, Head(r', r.defaultBranch), Head(r, r.defaultBranch), c);
    ResolvesExactly(r', scope, head, c);
  }

  // ---- from the delivery to the deployment ---------------------------------------------------------

  /** A person merges pull request `n` into the default branch with a merge commit of the given files. */
  function MergePull(r: Repo, head: Str, n: nat, files: Tree): Repo
    requires WellFormed(r) && 1 <= n <= |r.pulls| && head in r.refs && r.defaultBranch in r.refs
  {
    CommitOn(r, r.defaultBranch, [Head(r, r.defaultBranch), Head(r, head)], files)
    .(pulls := r.pulls[n - 1 := r.pulls[n - 1].(state := Merged(Some(|r.graph|)))])
  }

  lemma MergePullAllowed(job: Job, r: Repo, n: nat, files: Tree)
    requires WellFormed(r) && HasPull(job, r, n) && r.pulls[n - 1].state.Open?
    requires job.head in r.refs && r.defaultBranch in r.refs && job.head != r.defaultBranch
    ensures var m := MergePull(r, job.head, n, files);
            && OthersMay(job, r, m)
            && Head(m, m.defaultBranch) == |r.graph|
            && Reaches(m.graph, |r.graph|, Head(r, job.head)) && Reaches(m.graph, |r.graph|, Head(r, r.defaultBranch))
  {
    var m := MergePull(r, job.head, n, files);
    ExtendWellFounded(r.graph, [Head(r, r.defaultBranch), Head(r, job.head)]);
    assert m.graph[|r.graph|] == [Head(r, r.defaultBranch), Head(r, job.head)];
    assert Reaches(m.graph, m.graph[|r.graph|][0], Head(r, r.defaultBranch));
    assert Reaches(m.graph, m.graph[|r.graph|][1], Head(r, job.head));
  }

  /** From delivery to deployment: after any run in which a delivery has returned and nobody closed its
      pull request, merging that pull request is something other people may do, and the resolver then
      answers with the merge commit, which contains the recorded head. */
  lemma MergedPullIsResolved(job: Job, trace: seq<System>, d: nat, files: Tree, scope: Scope)
    requires Run(job, trace)
    requires var s := trace[|trace| - 1]; s.untouched && d < |s.deliveries| && s.deliveries[d].Returned?
    requires var r := trace[|trace| - 1].repo; r.defaultBranch in r.refs && job.head != r.defaultBranch
    ensures var r := trace[|trace| - 1].repo; var rec := trace[|trace| - 1].deliveries[d].record;
            && WellFormed(r) && 1 <= rec.number <= |r.pulls| && job.head in r.refs
            && var m := MergePull(r, job.head, rec.number, files);
            && OthersMay(job, r, m)
            && Resolve(m, scope, scope, scope, job.head) == Ok(Some(|r.graph|))
            && Reaches(m.graph, |r.graph|, rec.headCommit)
  {
    var s := trace[|trace| - 1];
    var r, rec := s.repo, s.deliveries[d].record;
    Convergence(job, trace, d);
    MergePullAllowed(job, r, rec.number, files);
    var m := MergePull(r, job.head, rec.number, files);
    OnlyMergedIsNewest(job, r, m, rec.number);
    ResolvesExactly(m, scope, job.head, |r.graph|);
  }

  lemma OnlyMergedIsNewest(job: Job, r: Repo, m: Repo, n: nat)
    requires WellFormed(r) && OnlyPull(job, r, n) && |m.pulls| == |r.pulls|
    requires m.pulls == r.pulls[n - 1 := r.pulls[n - 1].(state := Merged(Some(|r.graph|)))]
    ensures NewestMerged(m.pulls, job.head, n - 1)
  {
    forall j: nat | n - 1 < j < |m.pulls| ensures m.pulls[j].head != job.head {
      assert !HasPull(job, r, j + 1);
      assert m.pulls[j] == r.pulls[j];
    }
    NothingListed(m.pulls[n..], job.head);
  }

  lemma {:induction false} NothingListed(pulls: seq<Pull>, head: Str)
    requires forall k :: 0 <= k < |pulls| ==> pulls[k].head != head
    ensures Listing(pulls, head) == []
  {
    if pulls != [] { NothingListed(pulls[..|pulls| - 1], head); }
  }

  // ---- the page and the comparison -------------------------------------------------------------------------

  /** The page is the front of the listing, ten entries at most. */
  lemma PageExactly(pulls: seq<Pull>, head: Str)
    ensures Page(pulls, head) <= Listing(pulls, head)
    ensures |Page(pulls, head)| == if |Listing(pulls, head)| >= 10 then 10 else |Listing(pulls, head)|
  {
  }

  /** Where a commit stands relative to another. */
  lemma CompareExactly(g: seq<seq<nat>>, base: nat, head: nat)
    requires WellFounded(g) && base < |g| && head < |g|
    ensures Compare(g, base, head) == Identical <==> base == head
    ensures Compare(g, base, head) == Behind <==> base != head && Reaches(g, base, head)
    ensures Compare(g, base, head) == Ahead <==> base != head && Reaches(g, head, base)
    ensures Compare(g, base, head) == Diverged <==> !Reaches(g, base, head) && !Reaches(g, head, base)
  {
    if base != head && Reaches(g, base, head) && Reaches(g, head, base) {
      AncestorsAreOlder(g, base, head);
      AncestorsAreOlder(g, head, base);
    }
  }
}
