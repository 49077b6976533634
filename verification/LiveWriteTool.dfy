/** One delivery that GitHub answers to the end: the worker as it is written, and exactly when it succeeds. */
module LiveWriteTool {
  import opened Text
  import opened Wrappers
  import opened CommitGraph
  import opened GitHub
  import opened PullRequest

  // ---- a delivery nobody interrupts ------------------------------------------------------------------

  ghost function Rank(job: Job, phase: Phase): nat
    requires InRange(job, phase)
  {
    var n := |job.paths|;
    match phase
    case AskRepo => 2 * n + 7
    case LookUpBranch(_) => 2 * n + 6
    case CreateBranch(_) => 2 * n + 5
    case LookUpFile(_, i) => 2 * (n - i) + 4
    case PutFile(_, i, _) => 2 * (n - i) + 3
    case FindPull(_) => 3
    case CreatePull(_) => 2
    case ReadHead(_, _) => 1
    case Returned(_) => 0
    case Failed => 0
  }

  ghost predicate Usable(job: Job) { |job.paths| > 0 && forall p :: p in job.paths <==> p in job.changes }

  lemma StepUsable(job: Job, r: Repo, phase: Phase)
    requires WellFormed(r) && InRange(job, phase) && Usable(job)
    ensures var o := Step(job, r, phase); WellFormed(o.repo) && InRange(job, o.phase)
    ensures !phase.Returned? && !phase.Failed? ==> Rank(job, Step(job, r, phase).phase) < Rank(job, phase)
  {
    if phase.PutFile? && job.head in r.refs { ExtendWellFounded(r.graph, [Head(r, job.head)]); }
  }

  /** Where an uninterrupted delivery ends, and the repository it leaves. */
  ghost function Solo(job: Job, r: Repo, phase: Phase): (Repo, Phase)
    requires WellFormed(r) && InRange(job, phase) && Usable(job)
    decreases Rank(job, phase)
  {
    if phase.Returned? || phase.Failed? then (r, phase)
    else
      StepUsable(job, r, phase);
      var o := Step(job, r, phase);
      Solo(job, o.repo, o.phase)
  }

  lemma SoloStep(job: Job, r: Repo, phase: Phase)
    requires WellFormed(r) && InRange(job, phase) && Usable(job) && !phase.Returned? && !phase.Failed?
    ensures var o := Step(job, r, phase);
            WellFormed(o.repo) && InRange(job, o.phase) && Solo(job, r, phase) == Solo(job, o.repo, o.phase)
  {
    StepUsable(job, r, phase);
  }

  lemma SoloEnd(job: Job, r: Repo, phase: Phase)
    requires WellFormed(r) && Usable(job) && (phase.Returned? || phase.Failed?)
    ensures Solo(job, r, phase) == (r, phase)
  {
  }

  // ---- the worker, request by request ---------------------------------------------------------------

  /** The remote repository; every method is one HTTP request. */
  class Remote {
    var repo: Repo

    constructor (r: Repo)
      ensures repo == r
    {
      repo := r;
    }

    method CreateRef(branch: Str, commit: nat) returns (created: bool)
      modifies this
      ensures (created, repo) == PostRef(old(repo), branch, commit)
    {
      var (c, r) := PostRef(repo, branch, commit);
      created, repo := c, r;
    }

    method PutFile(sha: Str -> Str, branch: Str, path: Str, contents: Str, expected: Option<Str>) returns (done: bool)
      requires branch in repo.refs ==> repo.refs[branch] < |repo.trees|
      modifies this
      ensures (done, repo) == PutContents(old(repo), sha, branch, path, contents, expected)
    {
      var (d, r) := PutContents(repo, sha, branch, path, contents, expected);
      done, repo := d, r;
    }

    method CreatePull(head: Str, base: Str) returns (number: Option<nat>)
      requires WellFormed(repo)
      modifies this
      ensures number.None? <==> PullRefused(old(repo), head, base)
      ensures number.Some? ==> number.value == |old(repo).pulls| + 1 && repo == WithPull(old(repo), head, base)
      ensures number.None? ==> repo == old(repo)
    {
      if PullRefused(repo, head, base) { return None; }
      number := Some(|repo.pulls| + 1);
      repo := WithPull(repo, head, base);
    }
  }

  datatype Error = BadInput | RequestRefused

  method EnsureBranch(remote: Remote, job: Job, base: Str)
    requires WellFormed(remote.repo) && Usable(job)
    modifies remote
    ensures WellFormed(remote.repo)
    ensures Solo(job, old(remote.repo), LookUpBranch(base)) == Solo(job, remote.repo, LookUpFile(base, 0))
  {
    SoloStep(job, remote.repo, LookUpBranch(base));
    if job.head !in remote.repo.refs {
      SoloStep(job, remote.repo, CreateBranch(base));
      var _ := remote.CreateRef(job.head, job.base);
    }
  }

  method CommitFile(remote: Remote, job: Job, base: Str, i: nat) returns (done: bool)
    requires WellFormed(remote.repo) && Usable(job) && i < |job.paths|
    modifies remote
    ensures WellFormed(remote.repo)
    ensures Solo(job, old(remote.repo), LookUpFile(base, i)) ==
            if done then Solo(job, remote.repo, AfterFile(job, base, i)) else (remote.repo, Failed)
  {
    var path := job.paths[i];
    var found := GetContents(remote.repo, job.sha, job.head, path);
    SoloStep(job, remote.repo, LookUpFile(base, i));
    if found == Some(job.sha(job.changes[path])) { return true; }
    SoloStep(job, remote.repo, PutFile(base, i, found));
    done := remote.PutFile(job.sha, job.head, path, job.changes[path], found);
    if !done { SoloEnd(job, remote.repo, Failed); }
  }

  method OpenOrReusePull(remote: Remote, job: Job, base: Str) returns (number: Option<nat>)
    requires WellFormed(remote.repo) && Usable(job)
    modifies remote
    ensures WellFormed(remote.repo)
    ensures Solo(job, old(remote.repo), FindPull(base)) ==
            match number case Some(n) => Solo(job, remote.repo, ReadHead(base, n)) case None => (remote.repo, Failed)
  {
    var existing := FindOpen(remote.repo.pulls, job.head);
    SoloStep(job, remote.repo, FindPull(base));
    if existing.Some? { return Some(existing.value.number); }
    SoloStep(job, remote.repo, CreatePull(base));
    number := remote.CreatePull(job.head, base);
    if number.None? { SoloEnd(job, remote.repo, Failed); }
  }

  ghost function Ending(r: Result<Record, Error>): Phase {
    match r case Ok(rec) => Returned(rec) case Err(_) => Failed
  }

  /** `open_pull_request`: make the branch if it is missing, commit the files that differ, reuse or open
      the pull request, read the head.  It does what the delivery of the protocol does when it is answered
      to the end. */
  method OpenPullRequest(remote: Remote, job: Job) returns (r: Result<Record, Error>)
    requires WellFormed(remote.repo)
    modifies remote
    ensures !InputOk(job) ==> r == Err(BadInput) && remote.repo == old(remote.repo)
    ensures InputOk(job) ==> Usable(job) && (r.Err? ==> r.reason == RequestRefused)
    ensures InputOk(job) ==> Solo(job, old(remote.repo), AskRepo) == (remote.repo, Ending(r))
  {
    if !InputOk(job) { return Err(BadInput); }
    InputOkRange(job);
    var base := remote.repo.defaultBranch;
    SoloStep(job, remote.repo, AskRepo);
    EnsureBranch(remote, job, base);
    var done := CommitFiles(remote, job, base);
    if !done { return Err(RequestRefused); }
    var number := OpenOrReusePull(remote, job, base);
    if number.None? { return Err(RequestRefused); }
    r := ReadBranchHead(remote, job, base, number.value);
  }

  method CommitFiles(remote: Remote, job: Job, base: Str) returns (done: bool)
    requires WellFormed(remote.repo) && Usable(job)
    modifies remote
    ensures WellFormed(remote.repo)
    ensures Solo(job, old(remote.repo), LookUpFile(base, 0)) ==
            if done then Solo(job, remote.repo, FindPull(base)) else (remote.repo, Failed)
  {
    var i := 0;
    while i < |job.paths|
      invariant i <= |job.paths| && WellFormed(remote.repo)
      invariant Solo(job, old(remote.repo), LookUpFile(base, 0)) ==
                Solo(job, remote.repo, if i < |job.paths| then LookUpFile(base, i) else FindPull(base))
    {
      done := CommitFile(remote, job, base, i);
      if !done { return; }
      i := i + 1;
    }
    done := true;
  }

  method ReadBranchHead(remote: Remote, job: Job, base: Str, number: nat) returns (r: Result<Record, Error>)
    requires WellFormed(remote.repo) && Usable(job)
    ensures r.Err? ==> r.reason == RequestRefused
    ensures Solo(job, remote.repo, ReadHead(base, number)) == (remote.repo, Ending(r))
  {
    SoloStep(job, remote.repo, ReadHead(base, number));
    if job.head !in remote.repo.refs {
      SoloEnd(job, remote.repo, Failed);
      return Err(RequestRefused);
    }
    r := Ok(Record(job.head, Head(remote.repo, job.head), base, number));
    SoloEnd(job, remote.repo, Ending(r));
  }

  // ---- exactly when it succeeds ----------------------------------------------------------------------

  /** The commit and files the branch has, or would get when it is made now. */
  predicate BranchAvailable(job: Job, r: Repo) { job.head in r.refs || job.base < |r.graph| }

  function StartCommit(job: Job, r: Repo): (c: nat)
    requires WellFormed(r) && BranchAvailable(job, r)
    ensures c < |r.graph|
  {
    if job.head in r.refs then r.refs[job.head] else job.base
  }

  /** Some changed file does not have its new contents yet. */
  ghost predicate HasWork(job: Job, r: Repo)
    requires WellFormed(r) && BranchAvailable(job, r)
  {
    exists p :: p in job.changes && !OnTarget(job, r.trees[StartCommit(job, r)], p)
  }

  /** An open pull request to reuse, or a head that will differ from what the default branch contains. */
  ghost predicate PullAvailable(job: Job, r: Repo)
    requires WellFormed(r) && BranchAvailable(job, r)
  {
    || FindOpen(r.pulls, job.head).Some?
    || (r.defaultBranch in r.refs && r.defaultBranch != job.head
        && (HasWork(job, r) || !Reaches(r.graph, Head(r, r.defaultBranch), StartCommit(job, r))))
  }

  /** What committing the files changes: only the branch, which moves to a new commit exactly when some
      file was not on target. */
  ghost predicate FilesCommitted(job: Job, r: Repo, r': Repo) {
    && WellFormed(r) && WellFormed(r') && job.head in r.refs && job.head in r'.refs
    && r'.pulls == r.pulls && r'.defaultBranch == r.defaultBranch && r.graph <= r'.graph
    && (forall b :: b != job.head ==> (b in r'.refs <==> b in r.refs) && (b in r.refs ==> r'.refs[b] == r.refs[b]))
    && DoneTo(job, r', |job.paths|)
    && (if DoneTo(job, r, |job.paths|) then r' == r else Head(r', job.head) >= |r.graph|)
  }

  function NextFile(job: Job, base: Str, i: nat): Phase {
    if i < |job.paths| then LookUpFile(base, i) else FindPull(base)
  }

  /** What committing file `i`, or skipping it, changes. */
  ghost predicate OneFileCommitted(job: Job, r: Repo, r1: Repo, i: nat) {
    && WellFormed(r) && WellFormed(r1) && job.head in r.refs && job.head in r1.refs && i < |job.paths|
    && r1.pulls == r.pulls && r1.defaultBranch == r.defaultBranch && r.graph <= r1.graph
    && (forall b :: b != job.head ==> (b in r1.refs <==> b in r.refs) && (b in r.refs ==> r1.refs[b] == r.refs[b]))
    && (if OnTarget(job, Files(r, job.head), job.paths[i]) then r1 == r
        else Head(r1, job.head) == |r.graph| < |r1.graph|)
  }

  /** The repository once file `i` is in place. */
  function WithFile(job: Job, r: Repo, i: nat): (r1: Repo)
    requires Usable(job) && WellFormed(r) && job.head in r.refs && i < |job.paths|
    ensures WellFormed(r1) && job.head in r1.refs
  {
    var path := job.paths[i];
    assert path in job.paths;
    ExtendWellFounded(r.graph, [Head(r, job.head)]);
    if GetContents(r, job.sha, job.head, path) == Some(job.sha(job.changes[path])) then r
    else CommitOn(r, job.head, [Head(r, job.head)], Files(r, job.head)[path := job.changes[path]])
  }

  lemma FileInPlace(job: Job, r: Repo, i: nat)
    requires Usable(job) && WellFormed(r) && job.head in r.refs && i < |job.paths| && DoneTo(job, r, i)
    ensures OneFileCommitted(job, r, WithFile(job, r, i), i) && DoneTo(job, WithFile(job, r, i), i + 1)
  {
    var r1 := WithFile(job, r, i);
    forall j | 0 <= j < i + 1 ensures OnTarget(job, Files(r1, job.head), job.paths[j]) {
      if j < i { assert OnTarget(job, Files(r, job.head), job.paths[j]); }
    }
  }

  lemma FileStep(job: Job, r: Repo, base: Str, i: nat)
    requires Usable(job) && WellFormed(r) && job.head in r.refs && i < |job.paths|
    ensures Solo(job, r, LookUpFile(base, i)) == Solo(job, WithFile(job, r, i), NextFile(job, base, i + 1))
  {
    var path := job.paths[i];
    SoloStep(job, r, LookUpFile(base, i));
    var found := GetContents(r, job.sha, job.head, path);
    if found != Some(job.sha(job.changes[path])) { SoloStep(job, r, PutFile(base, i, found)); }
  }

  /** The repository once the files from `i` on are in place. */
  ghost function WithFiles(job: Job, r: Repo, i: nat): (r': Repo)
    requires Usable(job) && WellFormed(r) && job.head in r.refs && i <= |job.paths|
    ensures WellFormed(r') && job.head in r'.refs
    decreases |job.paths| - i
  {
    if i == |job.paths| then r else WithFiles(job, WithFile(job, r, i), i + 1)
  }

  lemma CommittedFurther(job: Job, r: Repo, r1: Repo, i: nat, r': Repo)
    requires OneFileCommitted(job, r, r1, i) && FilesCommitted(job, r1, r')
    ensures FilesCommitted(job, r, r')
  {
    if OnTarget(job, Files(r, job.head), job.paths[i]) {
      assert r1 == r;
    } else {
      assert !DoneTo(job, r, |job.paths|);
    }
  }

  lemma NothingLeft(job: Job, r: Repo)
    requires WellFormed(r) && job.head in r.refs && DoneTo(job, r, |job.paths|)
    ensures FilesCommitted(job, r, r)
  {
  }

  lemma {:induction false} FilesLand(job: Job, r: Repo, i: nat)
    requires Usable(job) && WellFormed(r) && job.head in r.refs && i <= |job.paths| && DoneTo(job, r, i)
    ensures FilesCommitted(job, r, WithFiles(job, r, i))
    decreases |job.paths| - i
  {
    if i == |job.paths| {
      NothingLeft(job, r);
    } else {
      var r1 := WithFile(job, r, i);
      FileInPlace(job, r, i);
      FilesLand(job, r1, i + 1);
      CommittedFurther(job, r, r1, i, WithFiles(job, r1, i + 1));
    }
  }

  /** The commit loop on its own ends before the search for the pull request, with every file in place. */
  lemma {:induction false} FilesLoop(job: Job, r: Repo, base: Str, i: nat)
    requires Usable(job) && WellFormed(r) && job.head in r.refs && i <= |job.paths|
    ensures Solo(job, r, NextFile(job, base, i)) == Solo(job, WithFiles(job, r, i), FindPull(base))
    decreases |job.paths| - i
  {
    if i < |job.paths| {
      FileStep(job, r, base, i);
      FilesLoop(job, WithFile(job, r, i), base, i + 1);
    }
  }

  lemma WorkMeans(job: Job, r: Repo)
    requires Usable(job) && WellFormed(r) && job.head in r.refs
    ensures HasWork(job, r) <==> !DoneTo(job, r, |job.paths|)
  {
    if HasWork(job, r) {
      var p :| p in job.changes && !OnTarget(job, r.trees[StartCommit(job, r)], p);
      assert p in job.paths;
      var j :| 0 <= j < |job.paths| && job.paths[j] == p;
    } else {
      forall j | 0 <= j < |job.paths| ensures OnTarget(job, Files(r, job.head), job.paths[j]) {
        assert job.paths[j] in job.changes;
      }
    }
  }

  /** From the files on: the delivery returns exactly when a pull request is there or can be opened. */
  lemma PullOutcome(job: Job, r: Repo)
    requires Usable(job) && WellFormed(r) && job.head in r.refs
    ensures Solo(job, r, LookUpFile(r.defaultBranch, 0)).1.Returned? <==> PullAvailable(job, r)
  {
    var base := r.defaultBranch;
    FilesLoop(job, r, base, 0);
    FilesLand(job, r, 0);
    PullPhase(job, r, WithFiles(job, r, 0));
  }

  lemma PullPhase(job: Job, r: Repo, r': Repo)
    requires Usable(job) && FilesCommitted(job, r, r')
    ensures Solo(job, r', FindPull(r.defaultBranch)).1.Returned? <==> PullAvailable(job, r)
  {
    var base := r.defaultBranch;
    SoloStep(job, r', FindPull(base));
    if FindOpen(r.pulls, job.head).Some? {
      ReadHeadReturns(job, r', base, FindOpen(r.pulls, job.head).value.number);
    } else {
      SoloStep(job, r', CreatePull(base));
      RefusedExactly(job, r, r');
      if PullRefused(r', job.head, base) {
        SoloEnd(job, r', Failed);
      } else {
        ReadHeadReturns(job, WithPull(r', job.head, base), base, |r'.pulls| + 1);
      }
    }
  }

  lemma ReadHeadReturns(job: Job, r: Repo, base: Str, n: nat)
    requires Usable(job) && WellFormed(r) && job.head in r.refs
    ensures Solo(job, r, ReadHead(base, n)).1.Returned?
  {
    SoloStep(job, r, ReadHead(base, n));
    SoloEnd(job, r, Returned(Record(job.head, Head(r, job.head), base, n)));
  }

  lemma RefusedExactly(job: Job, r: Repo, r': Repo)
    requires Usable(job) && FilesCommitted(job, r, r') && FindOpen(r.pulls, job.head).None?
    ensures PullRefused(r', job.head, r.defaultBranch) <==> !PullAvailable(job, r)
  {
    WorkMeans(job, r);
    var base := r.defaultBranch;
    if base in r.refs && base != job.head && HasWork(job, r) {
      assert r'.refs[base] == r.refs[base] < |r.graph| <= Head(r', job.head);
      if Reaches(r'.graph, r'.refs[base], Head(r', job.head)) {
        AncestorsAreOlder(r'.graph, r'.refs[base], Head(r', job.head));
      }
    }
  }

  lemma NoBranchFails(job: Job, r: Repo, base: Str)
    requires Usable(job) && WellFormed(r) && !BranchAvailable(job, r)
    ensures Solo(job, r, LookUpBranch(base)) == (r, Failed)
  {
    SoloStep(job, r, LookUpBranch(base));
    SoloStep(job, r, CreateBranch(base));
    SoloStep(job, r, LookUpFile(base, 0));
    SoloStep(job, r, PutFile(base, 0, None));
    SoloEnd(job, r, Failed);
  }

  /** An uninterrupted delivery succeeds exactly when, before it starts, the branch or its base commit
      exists, and a pull request is open already or the branch will carry something the default branch
      does not contain.  In particular a patch whose files are all in place, and whose branch adds nothing to
      the default branch, gets no pull request it does not have already. */
  lemma DeliveryReturnsExactly(job: Job, r: Repo)
    requires Usable(job) && WellFormed(r)
    ensures Solo(job, r, AskRepo).1.Returned? <==> BranchAvailable(job, r) && PullAvailable(job, r)
  {
    var base := r.defaultBranch;
    SoloStep(job, r, AskRepo);
    if !BranchAvailable(job, r) {
      NoBranchFails(job, r, base);
    } else {
      SoloStep(job, r, LookUpBranch(base));
      if job.head in r.refs {
        PullOutcome(job, r);
      } else {
        SoloStep(job, r, CreateBranch(base));
        var made := PostRef(r, job.head, job.base).1;
        PullOutcome(job, made);
        assert StartCommit(job, made) == StartCommit(job, r);
        assert HasWork(job, made) <==> HasWork(job, r);
      }
    }
  }

  /** Delivering again after a delivery has returned, with nobody having closed the pull request, changes
      nothing in the repository and returns the same record. */
  lemma RedeliveryReturnsSameRecord(job: Job, trace: seq<System>, d: nat)
    requires Run(job, trace)
    requires var s := trace[|trace| - 1]; s.untouched && d < |s.deliveries| && s.deliveries[d].Returned?
    ensures var s := trace[|trace| - 1];
            && WellFormed(s.repo) && Usable(job)
            && Solo(job, s.repo, AskRepo) == (s.repo, s.deliveries[d])
  {
    RunKeeps(job, trace, |trace| - 1);
    SettledReturns(job, trace[|trace| - 1], d);
  }

  lemma SettledReturns(job: Job, s: System, d: nat)
    requires Inv(job, s) && s.untouched && d < |s.deliveries| && s.deliveries[d].Returned?
    ensures WellFormed(s.repo) && Usable(job) && Solo(job, s.repo, AskRepo) == (s.repo, s.deliveries[d])
  {
    var rec := s.deliveries[d].record;
    ReturnedPhase(job, s.repo, s.deliveries[d]);
    ReturnedMeans(job, s, d);
    OnePullWhenUntouched(job, s, rec.number);
    OnlyPullRefuses(job, s.repo, rec.number);
    InputOkRange(job);
    FoundIsOnly(job, s.repo, rec.number);
    SettledSolo(job, s.repo);
  }

  lemma FoundIsOnly(job: Job, r: Repo, n: nat)
    requires WellFormed(r) && OnlyPull(job, r, n) && FindOpen(r.pulls, job.head).Some?
    ensures FindOpen(r.pulls, job.head).value.number == n
  {
    FoundHasNumber(job, r);
  }

  lemma SettledSolo(job: Job, r: Repo)
    requires Usable(job) && WellFormed(r) && job.head in r.refs && DoneTo(job, r, |job.paths|)
    requires FindOpen(r.pulls, job.head).Some?
    ensures var number := FindOpen(r.pulls, job.head).value.number;
            Solo(job, r, AskRepo) == (r, Returned(Record(job.head, Head(r, job.head), r.defaultBranch, number)))
  {
    var base, n := r.defaultBranch, FindOpen(r.pulls, job.head).value.number;
    SoloStep(job, r, AskRepo);
    SoloStep(job, r, LookUpBranch(base));
    FilesLoop(job, r, base, 0);
    FilesLand(job, r, 0);
    SoloStep(job, r, FindPull(base));
    SoloStep(job, r, ReadHead(base, n));
    SoloEnd(job, r, Returned(Record(job.head, Head(r, job.head), base, n)));
  }

  // ---- a delivery that fails ---------------------------------------------------------------------------

  lemma OneCommitRepo(files: Tree)
    ensures WellFormed(Repo(Lit("main"), map[Lit("main") := 0], [[]], [files], []))
  {
  }

  /** A patch that changes `f` to what `f` holds already, delivered to a repository of one commit. */
  lemma InPlaceDeliveryFails(sha: Str -> Str, scope: Scope)
    ensures var files := map[Lit("f") := Lit("x")];
            var job := Job(scope, scope, Lit("fix"), 0, [Lit("f")], files, sha);
            var r := Repo(Lit("main"), map[Lit("main") := 0], [[]], [files], []);
            && Usable(job) && WellFormed(r) && BranchAvailable(job, r)
            && !Solo(job, r, AskRepo).1.Returned?
  {
    var files := map[Lit("f") := Lit("x")];
    var job := Job(scope, scope, Lit("fix"), 0, [Lit("f")], files, sha);
    var r := Repo(Lit("main"), map[Lit("main") := 0], [[]], [files], []);
    OneCommitRepo(files);
    assert Lit("fix")[0] != Lit("main")[0];
    assert !HasWork(job, r) && Reaches(r.graph, 0, 0);
    assert FindOpen(r.pulls, job.head).None?;
    DeliveryReturnsExactly(job, r);
  }

  // ---- from any state of any run -----------------------------------------------------------------------

  ghost predicate Ended(phase: Phase) { phase.Returned? || phase.Failed? }

  lemma AnswerMoves(job: Job, trace: seq<System>, d: nat) returns (longer: seq<System>)
    requires Run(job, trace) && d < |trace[|trace| - 1].deliveries|
    ensures trace <= longer && |longer| == |trace| + 1 && Run(job, longer)
    ensures Sound(job, trace[|trace| - 1]) && longer[|trace|] == Next(job, trace[|trace| - 1], Answer(d))
  {
    RunsExtend(job, trace, Answer(d));
    longer := trace + [Next(job, trace[|trace| - 1], Answer(d))];
  }

  /** Nothing but this delivery has moved. */
  ghost predicate OnlyMoved(s: System, s': System, d: nat, repo: Repo, phase: Phase)
    requires d < |s.deliveries|
  {
    s'.repo == repo && s'.deliveries == s.deliveries[d := phase] && s'.untouched == s.untouched
  }

  lemma OneAnswer(job: Job, trace: seq<System>, d: nat) returns (longer: seq<System>)
    requires Run(job, trace) && Usable(job) && d < |trace[|trace| - 1].deliveries|
    requires var s := trace[|trace| - 1]; WellFormed(s.repo) && InRange(job, s.deliveries[d])
    ensures trace <= longer && longer != [] && Run(job, longer)
    ensures var s := trace[|trace| - 1];
            var o := Step(job, s.repo, s.deliveries[d]);
            OnlyMoved(s, longer[|longer| - 1], d, o.repo, o.phase)
  {
    longer := AnswerMoves(job, trace, d);
  }

  lemma OnlyMovedTwice(s: System, mid: System, end: System, d: nat, r: Repo, p: Phase, r': Repo, p': Phase)
    requires d < |s.deliveries| && OnlyMoved(s, mid, d, r, p) && OnlyMoved(mid, end, d, r', p')
    ensures OnlyMoved(s, end, d, r', p')
  {
  }

  /** A run in which one delivery is answered until it ends: it ends as it does alone. */
  lemma {:induction false} SoloRuns(job: Job, trace: seq<System>, d: nat) returns (longer: seq<System>)
    requires Run(job, trace) && Usable(job) && d < |trace[|trace| - 1].deliveries|
    requires var s := trace[|trace| - 1]; WellFormed(s.repo) && InRange(job, s.deliveries[d])
    ensures trace <= longer && Run(job, longer)
    ensures var s := trace[|trace| - 1];
            var end := Solo(job, s.repo, s.deliveries[d]);
            OnlyMoved(s, longer[|longer| - 1], d, end.0, end.1)
    decreases Rank(job, trace[|trace| - 1].deliveries[d])
  {
    var s := trace[|trace| - 1];
    var phase := s.deliveries[d];
    if Ended(phase) {
      SoloEnd(job, s.repo, phase);
      longer := trace;
    } else {
      SoloStep(job, s.repo, phase);
      StepUsable(job, s.repo, phase);
      var o := Step(job, s.repo, phase);
      var more := OneAnswer(job, trace, d);
      longer := SoloRuns(job, more, d);
      var end := Solo(job, o.repo, o.phase);
      OnlyMovedTwice(s, more[|more| - 1], longer[|longer| - 1], d, o.repo, o.phase, end.0, end.1);
    }
  }

  lemma StartMoves(job: Job, trace: seq<System>) returns (longer: seq<System>)
    requires Run(job, trace) && InputOk(job)
    ensures trace <= longer && |longer| == |trace| + 1 && Run(job, longer)
    ensures var s := trace[|trace| - 1];
            longer[|trace|] == s.(deliveries := s.deliveries + [AskRepo])
  {
    RunsExtend(job, trace, Start);
    longer := trace + [Next(job, trace[|trace| - 1], Start)];
  }

  /** Liveness.  From every state of every run, one more delivery that is left alone returns, and with it the
      convergence results hold, exactly when the branch and a pull request are available in that state. */
  lemma DeliveryCompletes(job: Job, trace: seq<System>) returns (longer: seq<System>)
    requires Run(job, trace) && InputOk(job)
    ensures trace <= longer && Run(job, longer)
    ensures var s, s' := trace[|trace| - 1], longer[|longer| - 1];
            && WellFormed(s.repo) && Usable(job) && |s'.deliveries| == |s.deliveries| + 1 && s'.untouched == s.untouched
            && Ended(s'.deliveries[|s.deliveries|])
            && (s'.deliveries[|s.deliveries|].Returned? <==> BranchAvailable(job, s.repo) && PullAvailable(job, s.repo))
  {
    var s := trace[|trace| - 1];
    var d := |s.deliveries|;
    RunKeeps(job, trace, |trace| - 1);
    InputOkRange(job);
    var started := StartMoves(job, trace);
    longer := SoloRuns(job, started, d);
    DeliveryReturnsExactly(job, s.repo);
    SoloEnds(job, s.repo, AskRepo);
  }

  lemma {:induction false} SoloEnds(job: Job, r: Repo, phase: Phase)
    requires WellFormed(r) && InRange(job, phase) && Usable(job)
    ensures Ended(Solo(job, r, phase).1)
    decreases Rank(job, phase)
  {
    if !Ended(phase) {
      SoloStep(job, r, phase);
      StepUsable(job, r, phase);
      var o := Step(job, r, phase);
      SoloEnds(job, o.repo, o.phase);
    }
  }
}
