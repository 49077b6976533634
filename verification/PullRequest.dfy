/** The at-least-once remediation worker: many deliveries of one patch against one repository.

A delivery is the control flow of `open_pull_request` cut at its HTTP requests.  A run is any sequence
of actions: deliveries start, requests are answered in any interleaving, answers get lost after the
server acted, workers crash, and other people work on everything except the patch's own branch.
 */
module PullRequest {
  import opened Sequences
  import opened Sorting
  import opened Text
  import opened Wrappers
  import opened CommitGraph
  import opened GitHub

  datatype Scope = Scope(customer: Str, repository: Str)

  /** One patch with its changed files, and the tool it is delivered to. */
  datatype Job = Job(
    toolScope: Scope,
    patchScope: Scope,
    head: Str,
    base: nat,
    paths: seq<Str>,
    changes: map<Str, Str>,
    sha: Str -> Str)

  datatype Record = Record(head: Str, headCommit: nat, base: Str, number: nat)

  /** Where a delivery stands: the request it sends next, or how it ended. */
  datatype Phase =
    | AskRepo
    | LookUpBranch(base: Str)
    | CreateBranch(base: Str)
    | LookUpFile(base: Str, i: nat)
    | PutFile(base: Str, i: nat, expected: Option<Str>)
    | FindPull(base: Str)
    | CreatePull(base: Str)
    | ReadHead(base: Str, number: nat)
    | Returned(record: Record)
    | Failed

  datatype Write = MadeBranch | Committed(path: Str) | MadePull(number: nat)

  datatype Outcome = Outcome(repo: Repo, phase: Phase, write: Option<Write>)

  /** The checks before the first request. */
  predicate InputOk(job: Job) {
    && job.patchScope == job.toolScope
    && |job.changes| > 0
    && SortedKeys(job.changes.Keys) == Sort(StrBelow, job.paths)
  }

  /** Comparing the sorted lists accepts exactly the patches that name every changed file once. */
  lemma InputOkMeans(job: Job)
    ensures InputOk(job) <==>
            && job.patchScope == job.toolScope && |job.changes| > 0
            && Distinct(job.paths) && (forall p :: p in job.paths <==> p in job.changes)
  {
    var keys := SortedKeys(job.changes.Keys);
    StrOrder();
    SortOfSorted(StrBelow, keys);
    SortEqualIffSameMultiset(StrBelow, keys, job.paths);
    SameMembers(keys, job.paths);
  }

  // ---- one delivery --------------------------------------------------------------------------------

  function AfterFile(job: Job, base: Str, i: nat): Phase {
    if i + 1 < |job.paths| then LookUpFile(base, i + 1) else FindPull(base)
  }

  predicate InRange(job: Job, phase: Phase) {
    match phase
    case LookUpFile(_, i) => i < |job.paths| && job.paths[i] in job.changes
    case PutFile(_, i, _) => i < |job.paths| && job.paths[i] in job.changes
    case _ => true
  }

  /** The request of a phase, GitHub's answer, and where the delivery goes from there. */
  function Step(job: Job, r: Repo, phase: Phase): Outcome
    requires WellFormed(r) && InRange(job, phase)
  {
    match phase
    case AskRepo => Outcome(r, LookUpBranch(r.defaultBranch), None)
    case LookUpBranch(base) =>
      Outcome(r, if job.head in r.refs then LookUpFile(base, 0) else CreateBranch(base), None)
    case CreateBranch(base) =>
      var (made, r') := PostRef(r, job.head, job.base);
      Outcome(r', LookUpFile(base, 0), if made then Some(MadeBranch) else None)
    case LookUpFile(base, i) =>
      var found := GetContents(r, job.sha, job.head, job.paths[i]);
      var inPlace := found == Some(job.sha(job.changes[job.paths[i]]));
      Outcome(r, if inPlace then AfterFile(job, base, i) else PutFile(base, i, found), None)
    case PutFile(base, i, expected) =>
      var path := job.paths[i];
      var (made, r') := PutContents(r, job.sha, job.head, path, job.changes[path], expected);
      if made then Outcome(r', AfterFile(job, base, i), Some(Committed(path))) else Outcome(r, Failed, None)
    case FindPull(base) =>
      var found := FindOpen(r.pulls, job.head);
      Outcome(r, if found.Some? then ReadHead(base, found.value.number) else CreatePull(base), None)
    case CreatePull(base) =>
      if PullRefused(r, job.head, base) then Outcome(r, Failed, None)
      else Outcome(WithPull(r, job.head, base), ReadHead(base, |r.pulls| + 1), Some(MadePull(|r.pulls| + 1)))
    case ReadHead(base, number) =>
      var phase' := if job.head in r.refs then Returned(Record(job.head, Head(r, job.head), base, number)) else Failed;
      Outcome(r, phase', None)
    case Returned(_) => Outcome(r, phase, None)
    case Failed => Outcome(r, phase, None)
  }

  // ---- runs ----------------------------------------------------------------------------------------

  /** `untouched`: no person has closed or merged a pull request of this branch yet. */
  datatype System = System(repo: Repo, deliveries: seq<Phase>, log: seq<Write>, untouched: bool)

  datatype Action =
    | Start
    | Answer(d: nat)
    | LoseAnswer(d: nat)
    | Crash(d: nat)
    | Others(repo: Repo)

  ghost predicate PullMayBecome(p: Pull, q: Pull) {
    q == p || (p.state.Open? && q == p.(state := q.state))
  }

  /** What anyone else may do: anything that leaves the patch's branch, the default branch's name and the
      numbering of pull requests alone, opens no pull request for that branch and deletes no commit. */
  ghost predicate OthersMay(job: Job, r: Repo, r': Repo) {
    && WellFormed(r')
    && r'.defaultBranch == r.defaultBranch
    && (job.head in r'.refs <==> job.head in r.refs)
    && (job.head in r.refs ==> r'.refs[job.head] == r.refs[job.head])
    && r.graph <= r'.graph && r.trees <= r'.trees
    && |r.pulls| <= |r'.pulls|
    && (forall i :: 0 <= i < |r.pulls| ==> PullMayBecome(r.pulls[i], r'.pulls[i]))
    && (forall i :: |r.pulls| <= i < |r'.pulls| ==> r'.pulls[i].head != job.head)
  }

  ghost predicate LeavesPulls(job: Job, r: Repo, r': Repo)
    requires |r.pulls| <= |r'.pulls|
  {
    forall i :: 0 <= i < |r.pulls| && r.pulls[i].head == job.head ==> r'.pulls[i] == r.pulls[i]
  }

  ghost predicate Enabled(job: Job, s: System, a: Action) {
    match a
    case Start => true
    case Answer(d) => d < |s.deliveries|
    case LoseAnswer(d) => d < |s.deliveries| && !s.deliveries[d].Returned?
    case Crash(d) => d < |s.deliveries| && !s.deliveries[d].Returned?
    case Others(r) => OthersMay(job, s.repo, r)
  }

  ghost predicate Sound(job: Job, s: System) {
    WellFormed(s.repo) && forall d :: 0 <= d < |s.deliveries| ==> InRange(job, s.deliveries[d])
  }

  ghost function Logged(log: seq<Write>, w: Option<Write>): seq<Write> {
    match w case Some(e) => log + [e] case None => log
  }

  ghost function Next(job: Job, s: System, a: Action): System
    requires Sound(job, s) && Enabled(job, s, a)
  {
    match a
    case Start => s.(deliveries := s.deliveries + [if InputOk(job) then AskRepo else Failed])
    case Answer(d) =>
      var o := Step(job, s.repo, s.deliveries[d]);
      s.(repo := o.repo, deliveries := s.deliveries[d := o.phase], log := Logged(s.log, o.write))
    case LoseAnswer(d) =>
      var o := Step(job, s.repo, s.deliveries[d]);
      s.(repo := o.repo, deliveries := s.deliveries[d := Failed], log := Logged(s.log, o.write))
    case Crash(d) => s.(deliveries := s.deliveries[d := Failed])
    case Others(r) => s.(repo := r, untouched := s.untouched && LeavesPulls(job, s.repo, r))
  }

  /** Before the first delivery: no branch of that name and no pull request for it. */
  ghost predicate Initial(job: Job, s: System) {
    && WellFormed(s.repo) && s.deliveries == [] && s.log == [] && s.untouched
    && job.head !in s.repo.refs
    && forall i :: 0 <= i < |s.repo.pulls| ==> s.repo.pulls[i].head != job.head
  }

  /** `trace[0]`, `trace[1]`, ... are the states of one run. */
  ghost predicate Run(job: Job, trace: seq<System>) {
    && trace != [] && Initial(job, trace[0])
    && forall t :: 0 <= t < |trace| - 1 ==> Moves(job, trace[t], trace[t + 1])
  }

  ghost predicate Moves(job: Job, s: System, s': System) {
    Sound(job, s) && exists a :: Enabled(job, s, a) && s' == Next(job, s, a)
  }

  // ---- what every state of every run keeps -----------------------------------------------------------

  ghost predicate OnTarget(job: Job, tree: Tree, p: Str) {
    p in tree && p in job.changes && job.sha(tree[p]) == job.sha(job.changes[p])
  }

  /** The first `n` changed files have their new contents, by blob sha. */
  ghost predicate DoneTo(job: Job, r: Repo, n: nat)
    requires WellFormed(r)
  {
    || n == 0
    || (&& n <= |job.paths| && job.head in r.refs
        && forall j :: 0 <= j < n ==> OnTarget(job, Files(r, job.head), job.paths[j]))
  }

  /** The branch is the base tree with exactly the committed files replaced, and the log says which. */
  ghost predicate BranchOk(job: Job, r: Repo, log: seq<Write>) {
    && WellFormed(r)
    && multiset(log)[MadeBranch] == (if job.head in r.refs then 1 else 0)
    && (forall p :: multiset(log)[Committed(p)] <= 1)
    && (forall p :: Committed(p) in log ==> p in job.changes && job.head in r.refs)
    && (job.head in r.refs ==>
          && job.base < |r.graph| && Reaches(r.graph, Head(r, job.head), job.base)
          && forall p :: FileOk(job, r, log, p))
  }

  ghost predicate FileOk(job: Job, r: Repo, log: seq<Write>, p: Str)
    requires WellFormed(r) && job.head in r.refs && job.base < |r.graph|
  {
    Lookup(Files(r, job.head), p) ==
    if Committed(p) in log && p in job.changes then Some(job.changes[p]) else Lookup(r.trees[job.base], p)
  }

  /** At most one open pull request of the branch; the log lists every pull request of the branch once. */
  ghost predicate PullsOk(job: Job, r: Repo, log: seq<Write>) {
    && WellFormed(r)
    && (forall i :: 0 <= i < |r.pulls| && r.pulls[i].head == job.head ==> r.pulls[i].base == r.defaultBranch)
    && (forall i, j :: 0 <= i < j < |r.pulls| ==> !(IsOpen(r.pulls[i], job.head) && IsOpen(r.pulls[j], job.head)))
    && (forall n :: multiset(log)[MadePull(n)] == (if HasPull(job, r, n) then 1 else 0))
  }

  ghost predicate HasPull(job: Job, r: Repo, n: nat) { 1 <= n <= |r.pulls| && r.pulls[n - 1].head == job.head }

  ghost predicate AllOpen(job: Job, r: Repo) {
    forall i :: 0 <= i < |r.pulls| && r.pulls[i].head == job.head ==> r.pulls[i].state.Open?
  }

  /** What a delivery has achieved when it stands at a phase. */
  ghost predicate PhaseOk(job: Job, r: Repo, phase: Phase) {
    && WellFormed(r)
    && (phase != Failed ==> InputOk(job))
    && match phase
       case AskRepo => true
       case LookUpBranch(base) => base == r.defaultBranch
       case CreateBranch(base) => base == r.defaultBranch
       case LookUpFile(base, i) => base == r.defaultBranch && i < |job.paths| && DoneTo(job, r, i)
       case PutFile(base, i, expected) =>
         && base == r.defaultBranch && i < |job.paths| && job.paths[i] in job.changes && DoneTo(job, r, i)
         && expected != Some(job.sha(job.changes[job.paths[i]]))
       case FindPull(base) => base == r.defaultBranch && DoneTo(job, r, |job.paths|)
       case CreatePull(base) => base == r.defaultBranch && DoneTo(job, r, |job.paths|)
       case ReadHead(base, n) => base == r.defaultBranch && DoneTo(job, r, |job.paths|) && HasPull(job, r, n)
       case Returned(rec) =>
         && DoneTo(job, r, |job.paths|) && HasPull(job, r, rec.number)
         && job.head in r.refs && rec == Record(job.head, Head(r, job.head), r.defaultBranch, rec.number)
       case Failed => true
  }

  ghost predicate Inv(job: Job, s: System) {
    && BranchOk(job, s.repo, s.log) && PullsOk(job, s.repo, s.log)
    && (s.untouched ==> AllOpen(job, s.repo))
    && forall d :: 0 <= d < |s.deliveries| ==> PhaseOk(job, s.repo, s.deliveries[d])
  }

  /** How the repository may move under a delivery's feet without undoing what it achieved. */
  ghost predicate Grows(job: Job, r: Repo, r': Repo) {
    && WellFormed(r) && WellFormed(r')
    && r'.defaultBranch == r.defaultBranch
    && (job.head in r.refs ==> job.head in r'.refs)
    && (job.head in r.refs ==>
          forall p :: OnTarget(job, Files(r, job.head), p) ==> OnTarget(job, Files(r', job.head), p))
    && (|job.paths| > 0 && DoneTo(job, r, |job.paths|) ==>
          job.head in r'.refs && Head(r', job.head) == Head(r, job.head))
    && |r.pulls| <= |r'.pulls|
    && (forall i :: 0 <= i < |r.pulls| ==> r'.pulls[i].head == r.pulls[i].head)
  }

  lemma InputOkRange(job: Job)
    requires InputOk(job)
    ensures |job.paths| > 0 && forall p :: p in job.paths <==> p in job.changes
  {
    InputOkMeans(job);
    var p :| p in job.changes;
    assert p in job.paths;
  }

  lemma PhaseInRange(job: Job, r: Repo, phase: Phase)
    requires PhaseOk(job, r, phase)
    ensures InRange(job, phase)
  {
    match phase
    case LookUpFile(_, _) => InputOkRange(job);
    case _ =>
  }

  lemma PhaseStable(job: Job, r: Repo, r': Repo, phase: Phase)
    requires PhaseOk(job, r, phase) && Grows(job, r, r')
    ensures PhaseOk(job, r', phase)
  {
    if phase != Failed { InputOkRange(job); }
  }

  lemma DoneMore(job: Job, r: Repo, i: nat)
    requires WellFormed(r) && i < |job.paths| && DoneTo(job, r, i) && job.head in r.refs
    requires OnTarget(job, Files(r, job.head), job.paths[i])
    ensures DoneTo(job, r, i + 1)
  {
  }

  lemma LogCounts(log: seq<Write>, w: Write)
    ensures forall e :: multiset(log + [w])[e] == multiset(log)[e] + (if e == w then 1 else 0)
    ensures forall e :: e in log + [w] <==> e in log || e == w
    ensures forall e :: e in log <==> multiset(log)[e] > 0
  {
    assert multiset(log + [w]) == multiset(log) + multiset{w};
    forall e ensures e in log <==> multiset(log)[e] > 0 { assert e in log <==> e in multiset(log); }
  }

  /** Making the branch: it starts as the base tree and nothing is committed on it yet. */
  lemma MakeBranch(job: Job, r: Repo, log: seq<Write>)
    requires BranchOk(job, r, log) && PullsOk(job, r, log)
    requires job.head !in r.refs && job.base < |r.graph|
    ensures var r' := PostRef(r, job.head, job.base).1;
            BranchOk(job, r', log + [MadeBranch]) && PullsOk(job, r', log + [MadeBranch]) && Grows(job, r, r')
  {
    var r' := PostRef(r, job.head, job.base).1;
    var log' := log + [MadeBranch];
    LogCounts(log, MadeBranch);
    forall p ensures FileOk(job, r', log', p) { assert Committed(p) !in log'; }
    assert forall n :: HasPull(job, r', n) <==> HasPull(job, r, n);
    assert PullsOk(job, r', log');
  }

  lemma CommitKeepsPulls(job: Job, r: Repo, log: seq<Write>, path: Str, tree: Tree)
    requires BranchOk(job, r, log) && PullsOk(job, r, log) && job.head in r.refs
    requires WellFormed(CommitOn(r, job.head, [Head(r, job.head)], tree))
    ensures PullsOk(job, CommitOn(r, job.head, [Head(r, job.head)], tree), log + [Committed(path)])
  {
    var r' := CommitOn(r, job.head, [Head(r, job.head)], tree);
    LogCounts(log, Committed(path));
    assert forall n :: HasPull(job, r', n) <==> HasPull(job, r, n);
  }

  /** While a file is not in place the patch is not done. */
  lemma NotDone(job: Job, r: Repo, path: Str)
    requires WellFormed(r) && InputOk(job) && path in job.changes && job.head in r.refs
    requires !OnTarget(job, Files(r, job.head), path)
    ensures !DoneTo(job, r, |job.paths|)
  {
    InputOkRange(job);
    assert path in job.paths;
    var j :| 0 <= j < |job.paths| && job.paths[j] == path;
  }

  lemma CommitGrows(job: Job, r: Repo, path: Str)
    requires WellFormed(r) && InputOk(job) && path in job.changes && job.head in r.refs
    requires !OnTarget(job, Files(r, job.head), path)
    requires WellFormed(CommitOn(r, job.head, [Head(r, job.head)], Files(r, job.head)[path := job.changes[path]]))
    ensures var r' := CommitOn(r, job.head, [Head(r, job.head)], Files(r, job.head)[path := job.changes[path]]);
            Grows(job, r, r') && OnTarget(job, Files(r', job.head), path)
  {
    NotDone(job, r, path);
  }

  /** Committing one file: the branch moves to a child of its head with that file replaced. */
  lemma CommitFile(job: Job, r: Repo, log: seq<Write>, path: Str, expected: Option<Str>)
    requires BranchOk(job, r, log) && PullsOk(job, r, log) && path in job.changes && InputOk(job)
    requires expected != Some(job.sha(job.changes[path]))
    requires PutContents(r, job.sha, job.head, path, job.changes[path], expected).0
    ensures var r' := PutContents(r, job.sha, job.head, path, job.changes[path], expected).1;
            var log' := log + [Committed(path)];
            && BranchOk(job, r', log') && PullsOk(job, r', log') && Grows(job, r, r')
            && OnTarget(job, Files(r', job.head), path)
  {
    CommitFileBranch(job, r, log, path, expected);
    CommitKeepsPulls(job, r, log, path, Files(r, job.head)[path := job.changes[path]]);
    CommitGrows(job, r, path);
  }

  lemma CommitFileBranch(job: Job, r: Repo, log: seq<Write>, path: Str, expected: Option<Str>)
    requires BranchOk(job, r, log) && path in job.changes
    requires expected != Some(job.sha(job.changes[path]))
    requires PutContents(r, job.sha, job.head, path, job.changes[path], expected).0
    ensures var r' := PutContents(r, job.sha, job.head, path, job.changes[path], expected).1;
            BranchOk(job, r', log + [Committed(path)])
  {
    var r' := PutContents(r, job.sha, job.head, path, job.changes[path], expected).1;
    var log' := log + [Committed(path)];
    LogCounts(log, Committed(path));
    ExtendWellFounded(r.graph, [Head(r, job.head)]);
    assert r'.graph[Head(r', job.head)] == [Head(r, job.head)];
    ReachesStable(r.graph, r'.graph, Head(r, job.head), job.base);
    assert Reaches(r'.graph, r'.graph[Head(r', job.head)][0], job.base);
    assert FileOk(job, r, log, path);
    assert Committed(path) !in log;
    forall p ensures FileOk(job, r', log', p) { assert FileOk(job, r, log, p); }
  }

  lemma PullKeepsBranch(job: Job, r: Repo, log: seq<Write>)
    requires BranchOk(job, r, log)
    ensures BranchOk(job, WithPull(r, job.head, r.defaultBranch), log + [MadePull(|r.pulls| + 1)])
  {
    var r' := WithPull(r, job.head, r.defaultBranch);
    var log' := log + [MadePull(|r.pulls| + 1)];
    LogCounts(log, MadePull(|r.pulls| + 1));
    if job.head in r.refs {
      forall p ensures FileOk(job, r', log', p) { assert FileOk(job, r, log, p); }
    }
  }

  lemma PullKeepsPulls(job: Job, r: Repo, log: seq<Write>)
    requires PullsOk(job, r, log) && !PullRefused(r, job.head, r.defaultBranch)
    ensures PullsOk(job, WithPull(r, job.head, r.defaultBranch), log + [MadePull(|r.pulls| + 1)])
  {
    var r' := WithPull(r, job.head, r.defaultBranch);
    LogCounts(log, MadePull(|r.pulls| + 1));
    assert forall n :: HasPull(job, r', n) <==> HasPull(job, r, n) || n == |r.pulls| + 1;
  }

  /** Opening the pull request: GitHub refuses a second open one, so it is the only open one. */
  lemma MakePull(job: Job, r: Repo, log: seq<Write>)
    requires BranchOk(job, r, log) && PullsOk(job, r, log) && !PullRefused(r, job.head, r.defaultBranch)
    ensures var r' := WithPull(r, job.head, r.defaultBranch); var log' := log + [MadePull(|r.pulls| + 1)];
            BranchOk(job, r', log') && PullsOk(job, r', log') && Grows(job, r, r') && HasPull(job, r', |r.pulls| + 1)
  {
    PullKeepsBranch(job, r, log);
    PullKeepsPulls(job, r, log);
  }

  ghost predicate StepKeeps(job: Job, r: Repo, log: seq<Write>, phase: Phase)
    requires PhaseOk(job, r, phase)
  {
    PhaseInRange(job, r, phase);
    var o := Step(job, r, phase);
    var log' := Logged(log, o.write);
    BranchOk(job, o.repo, log') && PullsOk(job, o.repo, log') && Grows(job, r, o.repo) && PhaseOk(job, o.repo, o.phase)
  }

  lemma KeepsOutcome(job: Job, r: Repo, log: seq<Write>, phase: Phase, o: Outcome)
    requires PhaseOk(job, r, phase) && InRange(job, phase) && o == Step(job, r, phase)
    requires BranchOk(job, o.repo, Logged(log, o.write)) && PullsOk(job, o.repo, Logged(log, o.write))
    requires Grows(job, r, o.repo) && PhaseOk(job, o.repo, o.phase)
    ensures StepKeeps(job, r, log, phase)
  {
  }

  lemma AfterFileOk(job: Job, r: Repo, i: nat)
    requires WellFormed(r) && InputOk(job) && i < |job.paths| && DoneTo(job, r, i) && job.head in r.refs
    requires OnTarget(job, Files(r, job.head), job.paths[i])
    ensures PhaseOk(job, r, AfterFile(job, r.defaultBranch, i))
  {
    DoneMore(job, r, i);
  }

  lemma StepCreateBranch(job: Job, r: Repo, log: seq<Write>, base: Str)
    requires BranchOk(job, r, log) && PullsOk(job, r, log) && PhaseOk(job, r, CreateBranch(base))
    ensures StepKeeps(job, r, log, CreateBranch(base))
  {
    InputOkRange(job);
    if job.head !in r.refs && job.base < |r.graph| { BranchMade(job, r, log, base); }
  }

  lemma RefMade(job: Job, r: Repo, base: Str)
    requires WellFormed(r) && job.head !in r.refs && job.base < |r.graph|
    ensures Step(job, r, CreateBranch(base)) ==
            Outcome(PostRef(r, job.head, job.base).1, LookUpFile(base, 0), Some(MadeBranch))
  {
  }

  lemma BranchMade(job: Job, r: Repo, log: seq<Write>, base: Str)
    requires BranchOk(job, r, log) && PullsOk(job, r, log) && PhaseOk(job, r, CreateBranch(base))
    requires job.head !in r.refs && job.base < |r.graph|
    ensures StepKeeps(job, r, log, CreateBranch(base))
  {
    InputOkRange(job);
    MakeBranch(job, r, log);
    PhaseStable(job, r, PostRef(r, job.head, job.base).1, CreateBranch(base));
    RefMade(job, r, base);
    KeepsOutcome(job, r, log, CreateBranch(base), Step(job, r, CreateBranch(base)));
  }

  lemma FileRefused(job: Job, r: Repo, log: seq<Write>, base: Str, i: nat, expected: Option<Str>)
    requires BranchOk(job, r, log) && PullsOk(job, r, log) && PhaseOk(job, r, PutFile(base, i, expected))
    requires !PutContents(r, job.sha, job.head, job.paths[i], job.changes[job.paths[i]], expected).0
    ensures StepKeeps(job, r, log, PutFile(base, i, expected))
  {
  }

  lemma FileDone(job: Job, r: Repo, log: seq<Write>, base: Str, i: nat, expected: Option<Str>)
    requires BranchOk(job, r, log) && PullsOk(job, r, log) && PhaseOk(job, r, PutFile(base, i, expected))
    requires PutContents(r, job.sha, job.head, job.paths[i], job.changes[job.paths[i]], expected).0
    ensures var r' := PutContents(r, job.sha, job.head, job.paths[i], job.changes[job.paths[i]], expected).1;
            var log' := log + [Committed(job.paths[i])];
            && BranchOk(job, r', log') && PullsOk(job, r', log') && Grows(job, r, r')
            && PhaseOk(job, r', AfterFile(job, base, i))
  {
    var path := job.paths[i];
    var r' := PutContents(r, job.sha, job.head, path, job.changes[path], expected).1;
    CommitFile(job, r, log, path, expected);
    PhaseStable(job, r, r', PutFile(base, i, expected));
    AfterFileOk(job, r', i);
  }

  lemma PutMade(job: Job, r: Repo, base: Str, i: nat, expected: Option<Str>)
    requires WellFormed(r) && InRange(job, PutFile(base, i, expected))
    requires PutContents(r, job.sha, job.head, job.paths[i], job.changes[job.paths[i]], expected).0
    ensures Step(job, r, PutFile(base, i, expected)) ==
            Outcome(PutContents(r, job.sha, job.head, job.paths[i], job.changes[job.paths[i]], expected).1,
                    AfterFile(job, base, i), Some(Committed(job.paths[i])))
  {
  }

  lemma FileCommitted(job: Job, r: Repo, log: seq<Write>, base: Str, i: nat, expected: Option<Str>)
    requires BranchOk(job, r, log) && PullsOk(job, r, log) && PhaseOk(job, r, PutFile(base, i, expected))
    requires PutContents(r, job.sha, job.head, job.paths[i], job.changes[job.paths[i]], expected).0
    ensures StepKeeps(job, r, log, PutFile(base, i, expected))
  {
    PhaseInRange(job, r, PutFile(base, i, expected));
    PutMade(job, r, base, i, expected);
    FileDone(job, r, log, base, i, expected);
    KeepsOutcome(job, r, log, PutFile(base, i, expected), Step(job, r, PutFile(base, i, expected)));
  }

  lemma StepPutFile(job: Job, r: Repo, log: seq<Write>, base: Str, i: nat, expected: Option<Str>)
    requires BranchOk(job, r, log) && PullsOk(job, r, log) && PhaseOk(job, r, PutFile(base, i, expected))
    ensures StepKeeps(job, r, log, PutFile(base, i, expected))
  {
    if PutContents(r, job.sha, job.head, job.paths[i], job.changes[job.paths[i]], expected).0 {
      FileCommitted(job, r, log, base, i, expected);
    } else {
      FileRefused(job, r, log, base, i, expected);
    }
  }

  lemma StepLookUpFile(job: Job, r: Repo, log: seq<Write>, base: Str, i: nat)
    requires BranchOk(job, r, log) && PullsOk(job, r, log) && PhaseOk(job, r, LookUpFile(base, i))
    ensures StepKeeps(job, r, log, LookUpFile(base, i))
  {
    InputOkRange(job);
    var path := job.paths[i];
    if GetContents(r, job.sha, job.head, path) == Some(job.sha(job.changes[path])) { AfterFileOk(job, r, i); }
  }

  lemma FoundHasNumber(job: Job, r: Repo)
    requires WellFormed(r) && FindOpen(r.pulls, job.head).Some?
    ensures HasPull(job, r, FindOpen(r.pulls, job.head).value.number)
  {
    var i :| 0 <= i < |r.pulls| && r.pulls[i] == FindOpen(r.pulls, job.head).value;
  }

  lemma StepFindPull(job: Job, r: Repo, log: seq<Write>, base: Str)
    requires BranchOk(job, r, log) && PullsOk(job, r, log) && PhaseOk(job, r, FindPull(base))
    ensures StepKeeps(job, r, log, FindPull(base))
  {
    if FindOpen(r.pulls, job.head).Some? { FoundHasNumber(job, r); }
  }

  lemma StepCreatePull(job: Job, r: Repo, log: seq<Write>, base: Str)
    requires BranchOk(job, r, log) && PullsOk(job, r, log) && PhaseOk(job, r, CreatePull(base))
    ensures StepKeeps(job, r, log, CreatePull(base))
  {
    if PullRefused(r, job.head, base) {
      KeepsOutcome(job, r, log, CreatePull(base), Outcome(r, Failed, None));
    } else {
      PullMade(job, r, log, base);
    }
  }

  lemma PullMade(job: Job, r: Repo, log: seq<Write>, base: Str)
    requires BranchOk(job, r, log) && PullsOk(job, r, log) && PhaseOk(job, r, CreatePull(base))
    requires !PullRefused(r, job.head, base)
    ensures StepKeeps(job, r, log, CreatePull(base))
  {
    MakePull(job, r, log);
    PhaseStable(job, r, WithPull(r, job.head, base), CreatePull(base));
    var o := Outcome(WithPull(r, job.head, base), ReadHead(base, |r.pulls| + 1), Some(MadePull(|r.pulls| + 1)));
    KeepsOutcome(job, r, log, CreatePull(base), o);
  }

  /** One answered request keeps everything, and moves its delivery to a phase it has earned. */
  lemma StepKept(job: Job, r: Repo, log: seq<Write>, phase: Phase)
    requires BranchOk(job, r, log) && PullsOk(job, r, log) && PhaseOk(job, r, phase)
    ensures StepKeeps(job, r, log, phase)
  {
    match phase
    case CreateBranch(base) => StepCreateBranch(job, r, log, base);
    case PutFile(base, i, expected) => StepPutFile(job, r, log, base, i, expected);
    case LookUpFile(base, i) => StepLookUpFile(job, r, log, base, i);
    case FindPull(base) => StepFindPull(job, r, log, base);
    case CreatePull(base) => StepCreatePull(job, r, log, base);
    case _ => StepRead(job, r, log, phase);
  }

  lemma StepRead(job: Job, r: Repo, log: seq<Write>, phase: Phase)
    requires BranchOk(job, r, log) && PullsOk(job, r, log) && PhaseOk(job, r, phase)
    requires phase.AskRepo? || phase.LookUpBranch? || phase.ReadHead? || phase.Returned? || phase.Failed?
    ensures StepKeeps(job, r, log, phase)
  {
    if phase != Failed { InputOkRange(job); }
  }

  /** What other people do keeps everything, and no pull request closed means all still open. */
  lemma OthersKeep(job: Job, r: Repo, r': Repo, log: seq<Write>)
    requires BranchOk(job, r, log) && PullsOk(job, r, log) && OthersMay(job, r, r')
    ensures BranchOk(job, r', log) && PullsOk(job, r', log) && Grows(job, r, r')
    ensures AllOpen(job, r) && LeavesPulls(job, r, r') ==> AllOpen(job, r')
  {
    OthersKeepBranch(job, r, r', log);
    OthersKeepPulls(job, r, r', log);
    if job.head in r.refs {
      assert r'.trees[Head(r, job.head)] == r.trees[Head(r, job.head)];
    }
  }

  lemma OthersKeepBranch(job: Job, r: Repo, r': Repo, log: seq<Write>)
    requires BranchOk(job, r, log) && OthersMay(job, r, r')
    ensures BranchOk(job, r', log)
  {
    if job.head in r.refs {
      ReachesStable(r.graph, r'.graph, Head(r, job.head), job.base);
      assert r'.trees[Head(r, job.head)] == r.trees[Head(r, job.head)] && r'.trees[job.base] == r.trees[job.base];
      forall p ensures FileOk(job, r', log, p) { assert FileOk(job, r, log, p); }
    }
  }

  lemma OthersKeepPulls(job: Job, r: Repo, r': Repo, log: seq<Write>)
    requires PullsOk(job, r, log) && OthersMay(job, r, r')
    ensures PullsOk(job, r', log)
  {
    forall i | 0 <= i < |r'.pulls| && r'.pulls[i].head == job.head
      ensures i < |r.pulls| && r.pulls[i].head == job.head && r'.pulls[i].base == r.pulls[i].base
      ensures IsOpen(r'.pulls[i], job.head) ==> IsOpen(r.pulls[i], job.head)
    {
      assert PullMayBecome(r.pulls[i], r'.pulls[i]);
    }
    forall n: nat ensures HasPull(job, r', n) <==> HasPull(job, r, n) {
      if 1 <= n <= |r.pulls| { assert PullMayBecome(r.pulls[n - 1], r'.pulls[n - 1]); }
    }
  }

  lemma NextKeeps(job: Job, s: System, a: Action)
    requires Inv(job, s) && Sound(job, s) && Enabled(job, s, a)
    ensures Inv(job, Next(job, s, a))
  {
    var s' := Next(job, s, a);
    match a
    case Start =>
    case Crash(d) =>
    case Others(r) =>
      OthersKeep(job, s.repo, r, s.log);
      forall d | 0 <= d < |s.deliveries| ensures PhaseOk(job, r, s.deliveries[d]) {
        PhaseStable(job, s.repo, r, s.deliveries[d]);
      }
    case Answer(d) => AnswerKeeps(job, s, d);
    case LoseAnswer(d) => AnswerKeeps(job, s, d);
  }

  lemma StepOpens(job: Job, r: Repo, phase: Phase)
    requires WellFormed(r) && InRange(job, phase)
    ensures AllOpen(job, r) ==> AllOpen(job, Step(job, r, phase).repo)
  {
  }

  /** One delivery moves to a phase it has earned; the repository has only grown under the others. */
  lemma Reassemble(job: Job, s: System, d: nat, r: Repo, log: seq<Write>, phase: Phase)
    requires Inv(job, s) && d < |s.deliveries|
    requires BranchOk(job, r, log) && PullsOk(job, r, log) && Grows(job, s.repo, r) && PhaseOk(job, r, phase)
    requires s.untouched ==> AllOpen(job, r)
    ensures Inv(job, s.(repo := r, deliveries := s.deliveries[d := phase], log := log))
  {
    var moved := s.deliveries[d := phase];
    forall e | 0 <= e < |moved| ensures PhaseOk(job, r, moved[e]) {
      if e != d { PhaseStable(job, s.repo, r, s.deliveries[e]); }
    }
  }

  lemma AnswerKeeps(job: Job, s: System, d: nat)
    requires Inv(job, s) && Sound(job, s) && d < |s.deliveries|
    ensures Inv(job, Next(job, s, Answer(d)))
    ensures !s.deliveries[d].Returned? ==> Inv(job, Next(job, s, LoseAnswer(d)))
  {
    StepKept(job, s.repo, s.log, s.deliveries[d]);
    StepOpens(job, s.repo, s.deliveries[d]);
    var o := Step(job, s.repo, s.deliveries[d]);
    Reassemble(job, s, d, o.repo, Logged(s.log, o.write), o.phase);
    Reassemble(job, s, d, o.repo, Logged(s.log, o.write), Failed);
  }

  lemma InvSound(job: Job, s: System)
    requires Inv(job, s)
    ensures Sound(job, s)
  {
    forall d | 0 <= d < |s.deliveries| ensures InRange(job, s.deliveries[d]) {
      PhaseInRange(job, s.repo, s.deliveries[d]);
    }
  }

  // ---- over whole runs -------------------------------------------------------------------------------

  lemma InitialHolds(job: Job, s: System)
    requires Initial(job, s)
    ensures Inv(job, s)
  {
    assert forall w :: multiset(s.log)[w] == 0;
    forall n: nat ensures !HasPull(job, s.repo, n) {}
  }

  lemma MoveKeeps(job: Job, s: System, s': System)
    requires Inv(job, s) && Moves(job, s, s')
    ensures Inv(job, s')
  {
    var a :| Enabled(job, s, a) && s' == Next(job, s, a);
    NextKeeps(job, s, a);
  }

  lemma {:induction false} RunKeeps(job: Job, trace: seq<System>, t: nat)
    requires Run(job, trace) && t < |trace|
    ensures Inv(job, trace[t]) && Sound(job, trace[t])
  {
    if t == 0 {
      InitialHolds(job, trace[0]);
    } else {
      RunKeeps(job, trace, t - 1);
      assert Moves(job, trace[t - 1], trace[t - 1 + 1]);
      MoveKeeps(job, trace[t - 1], trace[t]);
    }
    InvSound(job, trace[t]);
  }

  /** No action is ever blocked by the model: every enabled action has a next state of the run. */
  lemma RunsExtend(job: Job, trace: seq<System>, a: Action)
    requires Run(job, trace) && Enabled(job, trace[|trace| - 1], a)
    ensures Sound(job, trace[|trace| - 1]) && Run(job, trace + [Next(job, trace[|trace| - 1], a)])
  {
    RunKeeps(job, trace, |trace| - 1);
    var s := trace[|trace| - 1];
    var longer := trace + [Next(job, s, a)];
    assert Moves(job, s, Next(job, s, a));
    forall t | 0 <= t < |longer| - 1 ensures Moves(job, longer[t], longer[t + 1]) {
      if t < |trace| - 1 { assert longer[t] == trace[t] && longer[t + 1] == trace[t + 1]; }
    }
  }

  /** Some delivery has returned. */
  ghost predicate Delivered(s: System) { exists d :: 0 <= d < |s.deliveries| && s.deliveries[d].Returned? }

  /** The branch holds the base tree overlaid with the changes, up to equal blob shas. */
  ghost predicate Overlaid(job: Job, r: Repo) {
    && WellFormed(r) && job.head in r.refs && job.base < |r.graph|
    && (forall p :: p in job.changes ==> OnTarget(job, Files(r, job.head), p))
    && (forall p :: p !in job.changes ==> Lookup(Files(r, job.head), p) == Lookup(r.trees[job.base], p))
  }

  /** Exactly one pull request of the branch exists, it is open, and it has this number. */
  ghost predicate OnlyPull(job: Job, r: Repo, n: nat) {
    && HasPull(job, r, n) && r.pulls[n - 1].state.Open? && r.pulls[n - 1].base == r.defaultBranch
    && forall m: nat :: HasPull(job, r, m) ==> m == n
  }

  lemma OnePullWhenUntouched(job: Job, s: System, n: nat)
    requires Inv(job, s) && s.untouched && HasPull(job, s.repo, n)
    ensures OnlyPull(job, s.repo, n)
  {
    forall m: nat | HasPull(job, s.repo, m) ensures m == n {
      assert IsOpen(s.repo.pulls[m - 1], job.head) && IsOpen(s.repo.pulls[n - 1], job.head);
    }
  }

  lemma ReturnedMeans(job: Job, s: System, d: nat)
    requires Inv(job, s) && d < |s.deliveries| && s.deliveries[d].Returned?
    ensures var rec := s.deliveries[d].record;
            && Overlaid(job, s.repo) && Reaches(s.repo.graph, Head(s.repo, job.head), job.base)
            && rec == Record(job.head, Head(s.repo, job.head), s.repo.defaultBranch, rec.number)
            && HasPull(job, s.repo, rec.number)
  {
    assert PhaseOk(job, s.repo, s.deliveries[d]);
    DoneIsOverlaid(job, s.repo, s.log);
  }

  /** Convergence.  However many deliveries ran, in whatever interleaving and with whatever losses: once
      one has returned, the branch exists and is the overlaid base tree, its head is the recorded commit,
      and while nobody closed or merged it, the recorded pull request is the only one of the branch. */
  lemma Convergence(job: Job, trace: seq<System>, d: nat)
    requires Run(job, trace) && d < |trace[|trace| - 1].deliveries| && trace[|trace| - 1].deliveries[d].Returned?
    ensures var s := trace[|trace| - 1]; var rec := s.deliveries[d].record;
            && Overlaid(job, s.repo) && Reaches(s.repo.graph, Head(s.repo, job.head), job.base)
            && rec == Record(job.head, Head(s.repo, job.head), s.repo.defaultBranch, rec.number)
            && HasPull(job, s.repo, rec.number)
            && (s.untouched ==> OnlyPull(job, s.repo, rec.number))
  {
    var s := trace[|trace| - 1];
    RunKeeps(job, trace, |trace| - 1);
    ReturnedMeans(job, s, d);
    if s.untouched { OnePullWhenUntouched(job, s, s.deliveries[d].record.number); }
  }

  lemma DoneIsOverlaid(job: Job, r: Repo, log: seq<Write>)
    requires BranchOk(job, r, log) && InputOk(job) && DoneTo(job, r, |job.paths|)
    ensures Overlaid(job, r) && Reaches(r.graph, Head(r, job.head), job.base)
  {
    InputOkRange(job);
    forall p | p in job.changes ensures OnTarget(job, Files(r, job.head), p) {
      assert p in job.paths;
      var j :| 0 <= j < |job.paths| && job.paths[j] == p;
    }
    forall p | p !in job.changes ensures Lookup(Files(r, job.head), p) == Lookup(r.trees[job.base], p) {
      assert FileOk(job, r, log, p);
    }
  }

  /** SHA-1 tells the old version of every changed file from its new one. */
  ghost predicate ShaTellsApart(job: Job, tree: Tree) {
    forall p :: p in job.changes && p in tree && job.sha(tree[p]) == job.sha(job.changes[p]) ==>
                  tree[p] == job.changes[p]
  }

  lemma OverlayExact(job: Job, r: Repo, log: seq<Write>)
    requires BranchOk(job, r, log) && Overlaid(job, r) && ShaTellsApart(job, r.trees[job.base])
    ensures Files(r, job.head) == r.trees[job.base] + job.changes
  {
    var files, base := Files(r, job.head), r.trees[job.base];
    var want := base + job.changes;
    forall p ensures Lookup(files, p) == Lookup(want, p) {
      assert FileOk(job, r, log, p);
      if p in job.changes { assert OnTarget(job, files, p); }
    }
    forall p ensures p in files <==> p in want { assert Lookup(files, p) == Lookup(want, p); }
    forall p | p in files ensures files[p] == want[p] { assert Lookup(files, p) == Lookup(want, p); }
  }

  /** Then, once a delivery has returned, the branch is the base tree overlaid with the changes. */
  lemma ConvergenceExact(job: Job, trace: seq<System>)
    requires Run(job, trace) && Delivered(trace[|trace| - 1])
    requires var r := trace[|trace| - 1].repo; job.base < |r.trees| ==> ShaTellsApart(job, r.trees[job.base])
    ensures var r := trace[|trace| - 1].repo;
            && WellFormed(r) && job.head in r.refs && job.base < |r.graph|
            && Files(r, job.head) == r.trees[job.base] + job.changes
  {
    var s := trace[|trace| - 1];
    var d :| 0 <= d < |s.deliveries| && s.deliveries[d].Returned?;
    Convergence(job, trace, d);
    RunKeeps(job, trace, |trace| - 1);
    OverlayExact(job, s.repo, s.log);
  }

  /** All deliveries that return, return the same record. */
  lemma SameRecord(job: Job, trace: seq<System>, d: nat, e: nat)
    requires Run(job, trace) && trace[|trace| - 1].untouched
    requires var ds := trace[|trace| - 1].deliveries; d < |ds| && e < |ds| && ds[d].Returned? && ds[e].Returned?
    ensures trace[|trace| - 1].deliveries[d] == trace[|trace| - 1].deliveries[e]
  {
    Convergence(job, trace, d);
    Convergence(job, trace, e);
  }

  /** Across all deliveries the branch is made at most once and each changed path is committed at most
      once, and nothing else is committed; one pull request while nobody closes it. */
  lemma WritesAreBounded(job: Job, trace: seq<System>)
    requires Run(job, trace)
    ensures var log := trace[|trace| - 1].log;
            && multiset(log)[MadeBranch] <= 1
            && (forall p :: multiset(log)[Committed(p)] <= (if p in job.changes then 1 else 0))
            && (trace[|trace| - 1].untouched ==> forall m, n :: MadePull(m) in log && MadePull(n) in log ==> m == n)
  {
    var s := trace[|trace| - 1];
    RunKeeps(job, trace, |trace| - 1);
    forall p ensures multiset(s.log)[Committed(p)] <= (if p in job.changes then 1 else 0) {
      assert Committed(p) in s.log <==> Committed(p) in multiset(s.log);
    }
    if s.untouched {
      forall m, n | MadePull(m) in s.log && MadePull(n) in s.log ensures m == n {
        assert MadePull(m) in multiset(s.log) && MadePull(n) in multiset(s.log);
        OnePullWhenUntouched(job, s, n);
      }
    }
  }

  // ---- redelivery ------------------------------------------------------------------------------------

  predicate SendsWrite(phase: Phase) { phase.CreateBranch? || phase.PutFile? || phase.CreatePull? }

  lemma ReturnedPhase(job: Job, r: Repo, phase: Phase)
    requires phase.Returned? && PhaseOk(job, r, phase)
    ensures InputOk(job) && |job.paths| > 0 && job.head in r.refs && DoneTo(job, r, |job.paths|)
    ensures HasPull(job, r, phase.record.number)
  {
    InputOkRange(job);
  }

  lemma OnlyPullRefuses(job: Job, r: Repo, n: nat)
    requires WellFormed(r) && OnlyPull(job, r, n)
    ensures PullRefused(r, job.head, r.defaultBranch) && FindOpen(r.pulls, job.head).Some?
  {
    var p := r.pulls[n - 1];
    assert p in r.pulls && IsOpen(p, job.head) && p.base == r.defaultBranch;
  }

  lemma DeliveredMeans(job: Job, s: System)
    requires Inv(job, s) && Delivered(s)
    ensures InputOk(job) && |job.paths| > 0 && job.head in s.repo.refs && DoneTo(job, s.repo, |job.paths|)
    ensures s.untouched ==>
              PullRefused(s.repo, job.head, s.repo.defaultBranch) && FindOpen(s.repo.pulls, job.head).Some?
  {
    var d :| 0 <= d < |s.deliveries| && s.deliveries[d].Returned?;
    ReturnedPhase(job, s.repo, s.deliveries[d]);
    if s.untouched {
      OnePullWhenUntouched(job, s, s.deliveries[d].record.number);
      OnlyPullRefuses(job, s.repo, s.deliveries[d].record.number);
    }
  }

  ghost predicate Quiet(job: Job, s: System, phase: Phase)
    requires WellFormed(s.repo) && InRange(job, phase)
  {
    var o := Step(job, s.repo, phase);
    && (o.write.Some? ==> o.write.value.MadePull? && !s.untouched)
    && (s.untouched && !SendsWrite(phase) ==> !SendsWrite(o.phase))
  }

  lemma LookUpQuiet(job: Job, s: System, base: Str, i: nat)
    requires PhaseOk(job, s.repo, LookUpFile(base, i)) && InRange(job, LookUpFile(base, i))
    requires job.head in s.repo.refs && OnTarget(job, Files(s.repo, job.head), job.paths[i])
    ensures Quiet(job, s, LookUpFile(base, i))
  {
  }

  lemma PutQuiet(job: Job, s: System, base: Str, i: nat, expected: Option<Str>)
    requires PhaseOk(job, s.repo, PutFile(base, i, expected)) && InRange(job, PutFile(base, i, expected))
    requires job.head in s.repo.refs && OnTarget(job, Files(s.repo, job.head), job.paths[i])
    ensures Quiet(job, s, PutFile(base, i, expected))
  {
  }

  lemma FileStepsQuiet(job: Job, s: System, phase: Phase)
    requires PhaseOk(job, s.repo, phase) && InRange(job, phase) && (phase.LookUpFile? || phase.PutFile?)
    requires |job.paths| > 0 && job.head in s.repo.refs && DoneTo(job, s.repo, |job.paths|)
    ensures Quiet(job, s, phase)
  {
    match phase
    case LookUpFile(base, i) => LookUpQuiet(job, s, base, i);
    case PutFile(base, i, expected) => PutQuiet(job, s, base, i, expected);
  }

  lemma PullQuiet(job: Job, s: System, phase: Phase)
    requires PhaseOk(job, s.repo, phase) && InRange(job, phase) && (phase.FindPull? || phase.CreatePull?)
    requires s.untouched ==>
               PullRefused(s.repo, job.head, s.repo.defaultBranch) && FindOpen(s.repo.pulls, job.head).Some?
    ensures Quiet(job, s, phase)
  {
  }

  lemma OtherStepsQuiet(job: Job, s: System, phase: Phase)
    requires PhaseOk(job, s.repo, phase) && InRange(job, phase) && job.head in s.repo.refs
    requires !phase.LookUpFile? && !phase.PutFile? && !phase.FindPull? && !phase.CreatePull?
    ensures Quiet(job, s, phase)
  {
  }

  /** Once a delivery has returned, a request is refused or reads, unless a person closed the pull request. */
  lemma StepQuiet(job: Job, s: System, phase: Phase)
    requires Inv(job, s) && Delivered(s) && PhaseOk(job, s.repo, phase)
    ensures InRange(job, phase) && Quiet(job, s, phase)
  {
    PhaseInRange(job, s.repo, phase);
    DeliveredMeans(job, s);
    if phase.LookUpFile? || phase.PutFile? {
      FileStepsQuiet(job, s, phase);
    } else if phase.FindPull? || phase.CreatePull? {
      PullQuiet(job, s, phase);
    } else {
      OtherStepsQuiet(job, s, phase);
    }
  }

  ghost predicate OnlyPullsSince(log: seq<Write>, log': seq<Write>) {
    log <= log' && forall i :: |log| <= i < |log'| ==> log'[i].MadePull?
  }

  /** What one action may still do once delivery `d` has returned. */
  ghost predicate QuietMove(s: System, s': System, d: nat)
    requires d < |s.deliveries|
  {
    && |s.deliveries| <= |s'.deliveries| && s'.deliveries[d] == s.deliveries[d]
    && (s'.untouched ==> s.untouched && s'.log == s.log)
    && OnlyPullsSince(s.log, s'.log)
  }

  lemma StepWritesOnlyPulls(job: Job, s: System, e: nat)
    requires Inv(job, s) && Delivered(s) && e < |s.deliveries|
    ensures InRange(job, s.deliveries[e])
    ensures var o := Step(job, s.repo, s.deliveries[e]); o.write.Some? ==> o.write.value.MadePull? && !s.untouched
  {
    StepQuiet(job, s, s.deliveries[e]);
  }

  lemma AnswerQuiet(job: Job, s: System, e: nat, d: nat)
    requires Inv(job, s) && Sound(job, s) && e < |s.deliveries|
    requires d < |s.deliveries| && s.deliveries[d].Returned?
    ensures QuietMove(s, Next(job, s, Answer(e)), d)
  {
    assert Delivered(s);
    StepWritesOnlyPulls(job, s, e);
    var o := Step(job, s.repo, s.deliveries[e]);
    assert e == d ==> o.phase == s.deliveries[d];
    QuietUpdate(s, e, o, o.phase, d);
    NextAnswers(job, s, e, o);
  }

  lemma LossQuiet(job: Job, s: System, e: nat, d: nat)
    requires Inv(job, s) && Sound(job, s) && e < |s.deliveries| && !s.deliveries[e].Returned?
    requires d < |s.deliveries| && s.deliveries[d].Returned?
    ensures QuietMove(s, Next(job, s, LoseAnswer(e)), d)
  {
    assert Delivered(s);
    StepWritesOnlyPulls(job, s, e);
    var o := Step(job, s.repo, s.deliveries[e]);
    QuietUpdate(s, e, o, Failed, d);
    NextAnswers(job, s, e, o);
  }

  lemma NextAnswers(job: Job, s: System, e: nat, o: Outcome)
    requires Sound(job, s) && e < |s.deliveries| && o == Step(job, s.repo, s.deliveries[e])
    ensures Next(job, s, Answer(e)) ==
            s.(repo := o.repo, deliveries := s.deliveries[e := o.phase], log := Logged(s.log, o.write))
    ensures !s.deliveries[e].Returned? ==>
              Next(job, s, LoseAnswer(e)) ==
              s.(repo := o.repo, deliveries := s.deliveries[e := Failed], log := Logged(s.log, o.write))
  {
  }

  lemma QuietUpdate(s: System, e: nat, o: Outcome, phase: Phase, d: nat)
    requires d < |s.deliveries| && e < |s.deliveries| && (e == d ==> phase == s.deliveries[d])
    requires o.write.Some? ==> o.write.value.MadePull? && !s.untouched
    ensures QuietMove(s, s.(repo := o.repo, deliveries := s.deliveries[e := phase], log := Logged(s.log, o.write)), d)
  {
  }

  lemma MoveQuiet(job: Job, s: System, s': System, d: nat)
    requires Inv(job, s) && Moves(job, s, s')
    requires d < |s.deliveries| && s.deliveries[d].Returned?
    ensures QuietMove(s, s', d)
  {
    var a :| Enabled(job, s, a) && s' == Next(job, s, a);
    match a
    case Answer(e) => AnswerQuiet(job, s, e, d);
    case LoseAnswer(e) => LossQuiet(job, s, e, d);
    case _ => IdleQuiet(job, s, a, d);
  }

  lemma IdleQuiet(job: Job, s: System, a: Action, d: nat)
    requires Sound(job, s) && Enabled(job, s, a) && !a.Answer? && !a.LoseAnswer?
    requires d < |s.deliveries| && s.deliveries[d].Returned?
    ensures QuietMove(s, Next(job, s, a), d)
  {
  }

  lemma RunMoves(job: Job, trace: seq<System>, t: nat)
    requires Run(job, trace) && 0 < t < |trace|
    ensures Moves(job, trace[t - 1], trace[t]) && Inv(job, trace[t - 1])
  {
    RunKeeps(job, trace, t - 1);
    assert Moves(job, trace[t - 1], trace[t - 1 + 1]);
  }

  lemma RunQuiet(job: Job, trace: seq<System>, u: nat, d: nat)
    requires Run(job, trace) && 0 < u < |trace|
    requires d < |trace[u - 1].deliveries| && trace[u - 1].deliveries[d].Returned?
    ensures QuietMove(trace[u - 1], trace[u], d)
  {
    RunMoves(job, trace, u);
    MoveQuiet(job, trace[u - 1], trace[u], d);
  }

  lemma QuietChain(s: System, mid: System, end: System, d: nat)
    requires d < |s.deliveries| && QuietMove(s, mid, d) && QuietMove(mid, end, d)
    ensures QuietMove(s, end, d)
  {
  }

  /** Redelivery is quiet: after one delivery has returned, nothing is ever made or committed again by
      any delivery, in flight or new; a pull request only after a person closed or merged one. */
  lemma {:induction false} QuietAfterReturn(job: Job, trace: seq<System>, t: nat, u: nat, d: nat)
    requires Run(job, trace) && t <= u < |trace| && d < |trace[t].deliveries| && trace[t].deliveries[d].Returned?
    ensures QuietMove(trace[t], trace[u], d)
    decreases u
  {
    if t == u {
      QuietStill(trace[t], d);
    } else {
      QuietAfterReturn(job, trace, t, u - 1, d);
      RunQuiet(job, trace, u, d);
      QuietChain(trace[t], trace[u - 1], trace[u], d);
    }
  }

  lemma QuietStill(s: System, d: nat)
    requires d < |s.deliveries|
    ensures QuietMove(s, s, d)
  {
  }

  lemma StepReads(job: Job, s: System, e: nat)
    requires Inv(job, s) && Sound(job, s) && Delivered(s) && s.untouched && e < |s.deliveries|
    requires !SendsWrite(s.deliveries[e])
    ensures !SendsWrite(Step(job, s.repo, s.deliveries[e]).phase)
  {
    StepQuiet(job, s, s.deliveries[e]);
  }

  lemma ActionReads(job: Job, s: System, a: Action, e: nat)
    requires Sound(job, s) && Enabled(job, s, a) && e < |Next(job, s, a).deliveries|
    requires e < |s.deliveries| ==>
               !SendsWrite(s.deliveries[e]) && !SendsWrite(Step(job, s.repo, s.deliveries[e]).phase)
    ensures !SendsWrite(Next(job, s, a).deliveries[e])
  {
  }

  lemma MoveReads(job: Job, s: System, s': System, e: nat)
    requires Inv(job, s) && Moves(job, s, s') && Delivered(s) && s.untouched && e < |s'.deliveries|
    requires e < |s.deliveries| ==> !SendsWrite(s.deliveries[e])
    ensures !SendsWrite(s'.deliveries[e])
  {
    var a :| Enabled(job, s, a) && s' == Next(job, s, a);
    if e < |s.deliveries| { StepReads(job, s, e); }
    ActionReads(job, s, a, e);
  }

  lemma LateContext(job: Job, trace: seq<System>, t: nat, u: nat)
    requires Run(job, trace) && t < u < |trace| && Delivered(trace[t]) && trace[u].untouched
    ensures Delivered(trace[u - 1]) && trace[u - 1].untouched
  {
    var d :| 0 <= d < |trace[t].deliveries| && trace[t].deliveries[d].Returned?;
    QuietAfterReturn(job, trace, t, u - 1, d);
    assert trace[u - 1].deliveries[d].Returned?;
    RunQuiet(job, trace, u, d);
  }

  lemma LateRead(job: Job, trace: seq<System>, t: nat, u: nat, e: nat)
    requires Run(job, trace) && t < u < |trace| && Delivered(trace[t]) && trace[u].untouched
    requires e < |trace[u].deliveries|
    requires e < |trace[u - 1].deliveries| ==> !SendsWrite(trace[u - 1].deliveries[e])
    ensures !SendsWrite(trace[u].deliveries[e])
  {
    LateContext(job, trace, t, u);
    RunMoves(job, trace, u);
    MoveReads(job, trace[u - 1], trace[u], e);
  }

  lemma StaysUntouched(job: Job, trace: seq<System>, t: nat, u: nat)
    requires Run(job, trace) && t < u < |trace| && Delivered(trace[t]) && trace[u].untouched
    ensures trace[u - 1].untouched
  {
    LateContext(job, trace, t, u);
  }

  /** A delivery that starts after another has returned never stands at a POST or PUT. */
  lemma {:induction false} LateDeliveriesOnlyRead(job: Job, trace: seq<System>, t: nat, u: nat, e: nat)
    requires Run(job, trace) && t <= u < |trace| && Delivered(trace[t]) && trace[u].untouched
    requires |trace[t].deliveries| <= e < |trace[u].deliveries|
    ensures !SendsWrite(trace[u].deliveries[e])
    decreases u
  {
    if t < u {
      StaysUntouched(job, trace, t, u);
      if e < |trace[u - 1].deliveries| { LateDeliveriesOnlyRead(job, trace, t, u - 1, e); }
      LateRead(job, trace, t, u, e);
    }
  }

  // ---- many patches at once ----------------------------------------------------------------------------

  lemma OtherCommit(job: Job, r: Repo, branch: Str, tree: Tree)
    requires WellFormed(r) && branch in r.refs && branch != job.head
    ensures OthersMay(job, r, CommitOn(r, branch, [Head(r, branch)], tree))
  {
    ExtendWellFounded(r.graph, [Head(r, branch)]);
  }

  lemma OtherPull(job: Job, r: Repo, head: Str, base: Str)
    requires WellFormed(r) && head != job.head
    ensures OthersMay(job, r, WithPull(r, head, base)) && LeavesPulls(job, r, WithPull(r, head, base))
  {
  }

  /** Every request of a delivery for another head branch is something others may do, and it leaves this patch's
      pull requests alone.  So the runs of one patch take in all deliveries of all others, and convergence holds
      for each of many patches that are delivered at once. */
  lemma OtherPatchesAreOthers(job: Job, other: Job, r: Repo, phase: Phase)
    requires WellFormed(r) && InRange(other, phase) && other.head != job.head
    ensures OthersMay(job, r, Step(other, r, phase).repo) && LeavesPulls(job, r, Step(other, r, phase).repo)
  {
    match phase
    case PutFile(base, i, expected) => OtherPut(job, other, r, base, i, expected);
    case CreatePull(base) => OtherPull(job, r, other.head, base);
    case _ =>
  }

  lemma OtherPut(job: Job, other: Job, r: Repo, base: Str, i: nat, expected: Option<Str>)
    requires WellFormed(r) && InRange(other, PutFile(base, i, expected)) && other.head != job.head
    ensures var r' := Step(other, r, PutFile(base, i, expected)).repo; OthersMay(job, r, r') && LeavesPulls(job, r, r')
  {
    var path := other.paths[i];
    if PutContents(r, other.sha, other.head, path, other.changes[path], expected).0 {
      OtherCommit(job, r, other.head, Files(r, other.head)[path := other.changes[path]]);
    }
  }
}
