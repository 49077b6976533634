/** A GitHub repository as the remediation worker and the commit resolver meet it over REST.

Only the responses the code branches on are kept: found or missing, created, refused (422, 404 or
the conflict on a stale blob sha).
 */
module GitHub {
  import opened Text
  import opened Wrappers
  import opened CommitGraph

  type Tree = map<Str, Str>

  datatype PullState = Open | Closed | Merged(commit: Option<nat>)

  datatype Pull = Pull(number: nat, head: Str, base: Str, state: PullState)

  /** `graph[c]` are the parents of commit `c` and `trees[c]` its files; pull requests are in order of creation. */
  datatype Repo = Repo(
    defaultBranch: Str,
    refs: map<Str, nat>,
    graph: seq<seq<nat>>,
    trees: seq<Tree>,
    pulls: seq<Pull>)

  predicate WellFormed(r: Repo) {
    && |r.graph| == |r.trees|
    && WellFounded(r.graph)
    && (forall b :: b in r.refs ==> r.refs[b] < |r.graph|)
    && (forall i :: 0 <= i < |r.pulls| ==> r.pulls[i].number == i + 1)
  }

  function Lookup(m: map<Str, Str>, k: Str): Option<Str> {
    if k in m then Some(m[k]) else None
  }

  function Head(r: Repo, branch: Str): nat
    requires branch in r.refs
  {
    r.refs[branch]
  }

  function Files(r: Repo, branch: Str): Tree
    requires branch in r.refs && r.refs[branch] < |r.trees|
  {
    r.trees[r.refs[branch]]
  }

  /** POST git/refs: 201 with the branch made, or 422 for a taken name or an unknown commit. */
  function PostRef(r: Repo, branch: Str, commit: nat): (bool, Repo) {
    if branch in r.refs || commit >= |r.graph| then (false, r)
    else (true, r.(refs := r.refs[branch := commit]))
  }

  /** GET contents: the blob sha, or 404 for a missing file or branch. */
  function GetContents(r: Repo, sha: Str -> Str, branch: Str, path: Str): Option<Str>
    requires branch in r.refs ==> r.refs[branch] < |r.trees|
  {
    if branch in r.refs && path in Files(r, branch) then Some(sha(Files(r, branch)[path])) else None
  }

  function CommitOn(r: Repo, branch: Str, parents: seq<nat>, tree: Tree): Repo {
    r.(refs := r.refs[branch := |r.graph|], graph := r.graph + [parents], trees := r.trees + [tree])
  }

  /** PUT contents: one commit when the given blob sha is the current one, a refusal otherwise. */
  function PutContents(r: Repo, sha: Str -> Str, branch: Str, path: Str, contents: Str, expected: Option<Str>)
    : (bool, Repo)
    requires branch in r.refs ==> r.refs[branch] < |r.trees|
  {
    if branch !in r.refs || GetContents(r, sha, branch, path) != expected then (false, r)
    else (true, CommitOn(r, branch, [Head(r, branch)], Files(r, branch)[path := contents]))
  }

  predicate IsOpen(p: Pull, head: Str) { p.head == head && p.state.Open? }

  /** GET pulls?state=open&head=...: the newest open pull request of the branch. */
  function FindOpen(pulls: seq<Pull>, head: Str): (r: Option<Pull>)
    ensures r.Some? ==> r.value in pulls && IsOpen(r.value, head)
    ensures r.None? <==> forall p :: p in pulls ==> !IsOpen(p, head)
  {
    if pulls == [] then None
    else if IsOpen(pulls[|pulls| - 1], head) then Some(pulls[|pulls| - 1])
    else FindOpen(pulls[..|pulls| - 1], head)
  }

  /** POST pulls: refused for a missing branch, a second open request of the same head and base, or a
      head that adds no commit to the base. */
  predicate PullRefused(r: Repo, head: Str, base: Str)
    requires WellFormed(r)
  {
    || head !in r.refs || base !in r.refs
    || (exists p :: p in r.pulls && IsOpen(p, head) && p.base == base)
    || Reaches(r.graph, Head(r, base), Head(r, head))
  }

  function WithPull(r: Repo, head: Str, base: Str): Repo {
    r.(pulls := r.pulls + [Pull(|r.pulls| + 1, head, base, Open)])
  }
}
