/** The branch name a patch derives from its own coordinates, and when two patches get different ones. */
module HeadBranch {
  import opened GitHub
  import opened PullRequest
  import Strings
  import Text

  const UNIT_SEPARATOR: char := '\U{1F}'

  /** What the name is derived from: the finding, the base commit and the digest of the patch artifact. */
  datatype Patch = Patch(findingId: string, baseCommit: string, digest: string)

  function Seed(p: Patch): string { Strings.Join([p.findingId, p.baseCommit, p.digest], UNIT_SEPARATOR) }

  /** Sixteen hexadecimal digits of the seed's hash. */
  function Short(hash: string -> string, p: Patch): string
    requires |hash(Seed(p))| >= 16
  {
    hash(Seed(p))[..16]
  }

  function Name(hash: string -> string, p: Patch): string
    requires |hash(Seed(p))| >= 16
  {
    "remediation/" + p.findingId + "/" + Short(hash, p)
  }

  lemma CutName(prefix: string, f: string, short: string)
    requires |short| == 16
    ensures var n := prefix + f + "/" + short;
            |n| == |prefix| + |f| + 17 && n[|prefix|..|n| - 17] == f && n[|n| - 16..] == short
  {
  }

  /** Two patches share a branch if and only if finding and short hash agree. */
  lemma SameNameExactly(hash: string -> string, p: Patch, q: Patch)
    requires |hash(Seed(p))| >= 16 && |hash(Seed(q))| >= 16
    ensures Name(hash, p) == Name(hash, q) <==> p.findingId == q.findingId && Short(hash, p) == Short(hash, q)
  {
    CutName("remediation/", p.findingId, Short(hash, p));
    CutName("remediation/", q.findingId, Short(hash, q));
  }

  /** Base commit and digest, cut at every separator in them. */
  function Pieces(p: Patch): seq<string> { Strings.Flat([p.baseCommit, p.digest], UNIT_SEPARATOR) }

  lemma SameSeedExactly(p: Patch, q: Patch)
    requires p.findingId == q.findingId
    ensures Seed(p) == Seed(q) <==> Pieces(p) == Pieces(q)
  {
    var f, a, b := [p.findingId], [p.baseCommit, p.digest], [q.baseCommit, q.digest];
    assert [p.findingId, p.baseCommit, p.digest] == f + a && [q.findingId, q.baseCommit, q.digest] == f + b;
    Strings.JoinExactly(f + a, f + b, UNIT_SEPARATOR);
    Strings.FlatPlus(f, a, UNIT_SEPARATOR);
    Strings.FlatPlus(f, b, UNIT_SEPARATOR);
    SameTail(Strings.Flat(f, UNIT_SEPARATOR), Pieces(p), Pieces(q));
  }

  lemma SameTail(f: seq<string>, a: seq<string>, b: seq<string>)
    ensures f + a == f + b <==> a == b
  {
    assert (f + a)[|f|..] == a && (f + b)[|f|..] == b;
  }

  /** Where the short hashes of the two seeds do not collide, the branches differ unless the patches agree in
      finding, base commit and digest, up to separators in the last two. */
  lemma NamesDifferExactly(hash: string -> string, p: Patch, q: Patch)
    requires |hash(Seed(p))| >= 16 && |hash(Seed(q))| >= 16
    requires Short(hash, p) == Short(hash, q) ==> Seed(p) == Seed(q)
    ensures Name(hash, p) != Name(hash, q) <==> p.findingId != q.findingId || Pieces(p) != Pieces(q)
  {
    SameNameExactly(hash, p, q);
    if p.findingId == q.findingId { SameSeedExactly(p, q); }
  }

  /** So a delivery of a patch with another finding, or other pieces, never disturbs this patch's run. */
  lemma PatchesDoNotMeet(hash: string -> string, p: Patch, q: Patch, job: Job, other: Job, r: Repo, phase: Phase)
    requires |hash(Seed(p))| >= 16 && |hash(Seed(q))| >= 16
    requires Short(hash, p) == Short(hash, q) ==> Seed(p) == Seed(q)
    requires job.head == Text.Lit(Name(hash, p)) && other.head == Text.Lit(Name(hash, q))
    requires p.findingId != q.findingId || Pieces(p) != Pieces(q)
    requires WellFormed(r) && InRange(other, phase)
    ensures OthersMay(job, r, Step(other, r, phase).repo) && LeavesPulls(job, r, Step(other, r, phase).repo)
  {
    NamesDifferExactly(hash, p, q);
    Text.LitInjective(Name(hash, p), Name(hash, q));
    OtherPatchesAreOthers(job, other, r, phase);
  }

  /** Finding, base commit and digest with unit separators between, and the name that the hash of this gives. */
  lemma NameText(hash: string -> string, p: Patch, hex: string)
    requires hash(p.findingId + "\U{1F}" + p.baseCommit + "\U{1F}" + p.digest) == hex && |hex| >= 16
    ensures hash(Seed(p)) == hex && Name(hash, p) == "remediation/" + p.findingId + "/" + hex[..16]
  {
    assert [p.findingId, p.baseCommit, p.digest][1..] == [p.baseCommit, p.digest];
    assert [p.baseCommit, p.digest][1..] == [p.digest];
    assert Strings.Join([p.baseCommit, p.digest], UNIT_SEPARATOR) == p.baseCommit + ([UNIT_SEPARATOR] + p.digest);
    assert Seed(p) == p.findingId + "\U{1F}" + p.baseCommit + "\U{1F}" + p.digest;
  }
}
