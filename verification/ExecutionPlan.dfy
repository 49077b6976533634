/** Which perspectives each rule is evaluated in, asked by rule and asked by perspective, and coverage. */
module ExecutionPlan {
  import opened Wrappers
  import opened Sequences

  datatype Perspective = Iac | AwsActual | Manual | Drift

  /** `Legacy` is a rule without an execution type. */
  datatype Execution = Legacy | IacOnly | AwsOnly | Hybrid | ManualOnly

  datatype Rule = Rule(id: string, execution: Execution)

  const PERSPECTIVE_ORDER: seq<Perspective> := [Iac, AwsActual, Manual, Drift]

  function EvaluatedPerspectives(r: Rule): seq<Perspective> {
    match r.execution
    case Legacy => [Iac, AwsActual]
    case Hybrid => [Iac, AwsActual]
    case IacOnly => [Iac]
    case AwsOnly => [AwsActual]
    case ManualOnly => [Manual]
  }

  predicate IsDriftEligible(r: Rule) { r.execution in {Legacy, Hybrid} }

  function Select<T(!new)>(p: T -> bool, s: seq<T>): (r: seq<T>)
    ensures forall x :: x in r <==> x in s && p(x)
    ensures |r| <= |s|
  {
    if s == [] then []
    else Select(p, s[..|s| - 1]) + (if p(s[|s| - 1]) then [s[|s| - 1]] else [])
  }

  lemma {:induction false} SelectCounts<T(!new)>(p: T -> bool, s: seq<T>, x: T)
    ensures multiset(Select(p, s))[x] == if p(x) then multiset(s)[x] else 0
  {
    if s != [] {
      SelectCounts(p, s[..|s| - 1], x);
      assert s == s[..|s| - 1] + [s[|s| - 1]];
    }
  }

  lemma {:induction false} SelectNone<T(!new)>(p: T -> bool, s: seq<T>)
    requires forall x :: x in s ==> !p(x)
    ensures Select(p, s) == []
  {
    if s != [] { SelectNone(p, s[..|s| - 1]); }
  }

  lemma AllOrdered()
    ensures forall p: Perspective :: p in PERSPECTIVE_ORDER
  {
    forall p: Perspective ensures p in PERSPECTIVE_ORDER {
      match p
      case Iac => assert PERSPECTIVE_ORDER[0] == p;
      case AwsActual => assert PERSPECTIVE_ORDER[1] == p;
      case Manual => assert PERSPECTIVE_ORDER[2] == p;
      case Drift => assert PERSPECTIVE_ORDER[3] == p;
    }
  }

  /** What one worker can evaluate, and whether it derives drift. */
  datatype Planner = Planner(available: seq<Perspective>, deriveDrift: bool)

  function MakePlanner(perspectives: set<Perspective>, deriveDrift: bool): (r: Option<Planner>)
    ensures r.Some? <==> Drift !in perspectives && (deriveDrift ==> Iac in perspectives && AwsActual in perspectives)
    ensures r.Some? ==> Made(r.value) && forall p :: p in r.value.available <==> p in perspectives
  {
    var available := Select(p => p in perspectives, PERSPECTIVE_ORDER);
    AllOrdered();
    if Drift in available || (deriveDrift && !(Iac in available && AwsActual in available)) then None
    else Some(Planner(available, deriveDrift))
  }

  /** What the constructor guarantees. */
  predicate Made(w: Planner) {
    Drift !in w.available && (w.deriveDrift ==> Iac in w.available && AwsActual in w.available)
  }

  function PerspectivesFor(w: Planner, r: Rule): seq<Perspective> {
    var evaluated := Select(p => p in w.available, EvaluatedPerspectives(r));
    if evaluated == [] then []
    else if w.deriveDrift && IsDriftEligible(r) && |evaluated| == 2 then evaluated + [Drift]
    else evaluated
  }

  function RulesFor(w: Planner, p: Perspective, rules: seq<Rule>): seq<Rule> {
    Select(r => p in PerspectivesFor(w, r), rules)
  }

  function DriftRules(w: Planner, rules: seq<Rule>): seq<Rule> {
    if !w.deriveDrift then [] else Select(r => Drift in PerspectivesFor(w, r), rules)
  }

  predicate Produced(w: Planner, rules: seq<Rule>, p: Perspective) {
    exists i :: 0 <= i < |rules| && p in PerspectivesFor(w, rules[i])
  }

  function PlannedPerspectives(w: Planner, rules: seq<Rule>): seq<Perspective> {
    Select(p => Produced(w, rules, p), PERSPECTIVE_ORDER)
  }

  /** The planned pairs, asked rule by rule. */
  function PairsByRule(w: Planner, rules: seq<Rule>): seq<(Rule, Perspective)> {
    if rules == [] then []
    else
      var r := rules[|rules| - 1];
      PairsByRule(w, rules[..|rules| - 1]) + Map(p => (r, p), PerspectivesFor(w, r))
  }

  /** The pairs that are run, asked perspective by perspective. */
  function PairsByPerspective(w: Planner, ps: seq<Perspective>, rules: seq<Rule>): seq<(Rule, Perspective)> {
    if ps == [] then []
    else
      var p := ps[|ps| - 1];
      PairsByPerspective(w, ps[..|ps| - 1], rules) + Map(r => (r, p), RulesFor(w, p, rules))
  }

  lemma {:induction false} MapCounts<A(!new), B>(f: A -> B, s: seq<A>, x: A)
    requires forall y :: f(y) == f(x) ==> y == x
    ensures multiset(Map(f, s))[f(x)] == multiset(s)[x]
  {
    if s != [] {
      MapCounts(f, s[1..], x);
      assert s == [s[0]] + s[1..];
      assert Map(f, s) == [f(s[0])] + Map(f, s[1..]);
    }
  }

  lemma {:induction false} MapMisses<A, B>(f: A -> B, s: seq<A>, y: B)
    requires forall i :: 0 <= i < |s| ==> f(s[i]) != y
    ensures multiset(Map(f, s))[y] == 0
  {
    assert y !in Map(f, s);
  }

  lemma EvaluatedOnce(r: Rule, p: Perspective)
    ensures multiset(EvaluatedPerspectives(r))[p] <= 1
  {
    match r.execution
    case Legacy => assert multiset([Iac, AwsActual]) == multiset{Iac, AwsActual};
    case Hybrid => assert multiset([Iac, AwsActual]) == multiset{Iac, AwsActual};
    case IacOnly =>
    case AwsOnly =>
    case ManualOnly =>
  }

  lemma AtMostOne<T>(s: seq<T>, x: T)
    requires multiset(s)[x] <= 1
    ensures multiset(s)[x] == if x in s then 1 else 0
  {
    assert x in s <==> x in multiset(s);
  }

  lemma OneMore<T>(s: seq<T>, y: T, x: T)
    requires multiset(s)[x] <= 1 && y !in s
    ensures multiset(s + [y])[x] <= 1
  {
    PlusCounts(s, [y], x);
    if x == y { AtMostOne(s, x); }
  }

  lemma PerspectivesOnce(w: Planner, r: Rule, p: Perspective)
    requires Made(w)
    ensures multiset(PerspectivesFor(w, r))[p] == if p in PerspectivesFor(w, r) then 1 else 0
  {
    var e := Select(p => p in w.available, EvaluatedPerspectives(r));
    SelectCounts(p => p in w.available, EvaluatedPerspectives(r), p);
    EvaluatedOnce(r, p);
    assert Drift !in e;
    OneMore(e, Drift, p);
    AtMostOne(PerspectivesFor(w, r), p);
  }

  lemma OneRule(w: Planner, last: Rule, r: Rule, p: Perspective)
    requires Made(w)
    ensures multiset(Map((q: Perspective) => (last, q), PerspectivesFor(w, last)))[(r, p)] ==
            if last == r && p in PerspectivesFor(w, r) then 1 else 0
  {
    var pair := (q: Perspective) => (last, q);
    if last == r {
      MapCounts(pair, PerspectivesFor(w, r), p);
      PerspectivesOnce(w, r, p);
    } else {
      MapMisses(pair, PerspectivesFor(w, last), (r, p));
    }
  }

  lemma ByRuleStep(w: Planner, rules: seq<Rule>, r: Rule, p: Perspective)
    requires Made(w) && rules != []
    ensures var n := |rules| - 1;
            multiset(PairsByRule(w, rules))[(r, p)] ==
            multiset(PairsByRule(w, rules[..n]))[(r, p)]
            + (if rules[n] == r && p in PerspectivesFor(w, r) then 1 else 0)
  {
    var n := |rules| - 1;
    var last := rules[n];
    OneRule(w, last, r, p);
    PlusCounts(PairsByRule(w, rules[..n]), Map((q: Perspective) => (last, q), PerspectivesFor(w, last)), (r, p));
  }

  lemma {:induction false} ByRuleCounts(w: Planner, rules: seq<Rule>, r: Rule, p: Perspective)
    requires Made(w)
    ensures multiset(PairsByRule(w, rules))[(r, p)] == if p in PerspectivesFor(w, r) then multiset(rules)[r] else 0
  {
    if rules != [] {
      ByRuleCounts(w, rules[..|rules| - 1], r, p);
      ByRuleStep(w, rules, r, p);
      Adds(rules, r, 1);
    }
  }

  /** How often a rule is run in a perspective it is asked for. */
  function Runs(w: Planner, rules: seq<Rule>, r: Rule, p: Perspective): nat {
    if p in PerspectivesFor(w, r) then multiset(rules)[r] else 0
  }

  lemma OnePerspective(w: Planner, q: Perspective, rules: seq<Rule>, r: Rule, p: Perspective)
    ensures multiset(Map((x: Rule) => (x, q), RulesFor(w, q, rules)))[(r, p)] ==
            if q == p then Runs(w, rules, r, p) else 0
  {
    var pair := (x: Rule) => (x, q);
    if q == p {
      MapCounts(pair, RulesFor(w, p, rules), r);
      SelectCounts(x => p in PerspectivesFor(w, x), rules, r);
    } else {
      MapMisses(pair, RulesFor(w, q, rules), (r, p));
    }
  }

  lemma PlusCounts<T>(a: seq<T>, b: seq<T>, x: T)
    ensures multiset(a + b)[x] == multiset(a)[x] + multiset(b)[x]
  {
  }

  lemma ByPerspectiveStep(w: Planner, ps: seq<Perspective>, rules: seq<Rule>, r: Rule, p: Perspective)
    requires ps != []
    ensures var n := |ps| - 1;
            multiset(PairsByPerspective(w, ps, rules))[(r, p)] ==
            multiset(PairsByPerspective(w, ps[..n], rules))[(r, p)] + (if ps[n] == p then Runs(w, rules, r, p) else 0)
  {
    var n := |ps| - 1;
    var q := ps[n];
    OnePerspective(w, q, rules, r, p);
    PlusCounts(PairsByPerspective(w, ps[..n], rules), Map((x: Rule) => (x, q), RulesFor(w, q, rules)), (r, p));
  }

  lemma Adds<T>(s: seq<T>, x: T, c: nat)
    requires s != []
    ensures var n := |s| - 1; multiset(s)[x] * c == multiset(s[..n])[x] * c + (if s[n] == x then c else 0)
  {
    var n := |s| - 1;
    assert s == s[..n] + [s[n]];
    PlusCounts(s[..n], [s[n]], x);
  }

  lemma {:induction false} ByPerspectiveCounts(w: Planner, ps: seq<Perspective>, rules: seq<Rule>, r: Rule,
                                               p: Perspective)
    ensures multiset(PairsByPerspective(w, ps, rules))[(r, p)] == multiset(ps)[p] * Runs(w, rules, r, p)
  {
    if ps != [] {
      ByPerspectiveCounts(w, ps[..|ps| - 1], rules, r, p);
      ByPerspectiveStep(w, ps, rules, r, p);
      Adds(ps, p, Runs(w, rules, r, p));
    }
  }

  lemma PlannedOnce(w: Planner, rules: seq<Rule>, p: Perspective)
    ensures multiset(PlannedPerspectives(w, rules))[p] == if Produced(w, rules, p) then 1 else 0
  {
    SelectCounts(q => Produced(w, rules, q), PERSPECTIVE_ORDER, p);
    assert multiset(PERSPECTIVE_ORDER) == multiset{Iac, AwsActual, Manual, Drift};
  }

  lemma PairCounts(w: Planner, rules: seq<Rule>, r: Rule, p: Perspective)
    requires Made(w)
    ensures multiset(PairsByRule(w, rules))[(r, p)] ==
            multiset(PairsByPerspective(w, PlannedPerspectives(w, rules), rules))[(r, p)]
  {
    ByRuleCounts(w, rules, r, p);
    ByPerspectiveCounts(w, PlannedPerspectives(w, rules), rules, r, p);
    PlannedOnce(w, rules, p);
    if r in rules && p in PerspectivesFor(w, r) {
      var i :| 0 <= i < |rules| && rules[i] == r;
      assert Produced(w, rules, p);
    } else {
      assert r !in rules ==> multiset(rules)[r] == 0;
    }
  }

  /** What is planned is what is run: both ways of asking give the same pairs, each as often. */
  lemma PlannedIsRun(w: Planner, rules: seq<Rule>)
    requires Made(w)
    ensures multiset(PairsByRule(w, rules)) == multiset(PairsByPerspective(w, PlannedPerspectives(w, rules), rules))
    ensures |PairsByRule(w, rules)| == |PairsByPerspective(w, PlannedPerspectives(w, rules), rules)|
  {
    var a, b := PairsByRule(w, rules), PairsByPerspective(w, PlannedPerspectives(w, rules), rules);
    forall pair: (Rule, Perspective) ensures multiset(a)[pair] == multiset(b)[pair] {
      PairCounts(w, rules, pair.0, pair.1);
    }
    SameSize(a, b);
  }

  lemma SameSize<T(!new)>(a: seq<T>, b: seq<T>)
    requires forall x :: multiset(a)[x] == multiset(b)[x]
    ensures multiset(a) == multiset(b) && |a| == |b|
  {
    assert multiset(a) == multiset(b);
    assert |multiset(a)| == |a| && |multiset(b)| == |b|;
  }

  /** Drift is planned exactly when it is derived and the rule is evaluated in both perspectives. */
  lemma DriftExactly(w: Planner, rules: seq<Rule>, r: Rule)
    requires Made(w)
    ensures Drift in PerspectivesFor(w, r) <==> w.deriveDrift && IsDriftEligible(r)
    ensures Drift in PerspectivesFor(w, r) ==> Iac in PerspectivesFor(w, r) && AwsActual in PerspectivesFor(w, r)
    ensures DriftRules(w, rules) == RulesFor(w, Drift, rules)
  {
    DriftOne(w, r);
    if !w.deriveDrift {
      forall x ensures Drift !in PerspectivesFor(w, x) { DriftOne(w, x); }
      SelectNone(x => Drift in PerspectivesFor(w, x), rules);
    }
  }

  lemma DriftOne(w: Planner, r: Rule)
    requires Made(w)
    ensures Drift in PerspectivesFor(w, r) <==> w.deriveDrift && IsDriftEligible(r)
    ensures Drift in PerspectivesFor(w, r) ==> Iac in PerspectivesFor(w, r) && AwsActual in PerspectivesFor(w, r)
  {
    var inWorker := (p: Perspective) => p in w.available;
    var all := EvaluatedPerspectives(r);
    var e := Select(inWorker, all);
    assert Drift !in e;
    if w.deriveDrift && IsDriftEligible(r) {
      assert all == [Iac, AwsActual];
      SelectBoth(inWorker, Iac, AwsActual);
    }
  }

  lemma SelectBoth<T(!new)>(p: T -> bool, x: T, y: T)
    requires p(x) && p(y)
    ensures Select(p, [x, y]) == [x, y]
  {
    assert [x, y][..1] == [x] && [x][..0] == [];
    assert Select(p, [x]) == [x];
  }

  // ---- coverage ------------------------------------------------------------------------------------------

  datatype Coordinate = Coordinate(resource: string, rule: string, perspective: Perspective)

  datatype Evaluation = Evaluation(at: Coordinate, status: string)

  datatype Coverage = Coverage(planned: nat, completed: nat)

  function Seen(results: seq<Evaluation>): set<Coordinate> {
    set i | 0 <= i < |results| :: results[i].at
  }

  /** What is reported: nothing for an empty plan or for more completed than planned evaluations. */
  function CoverageOf(results: seq<Evaluation>, planned: nat): Option<Coverage> {
    if planned == 0 || |Seen(results)| > planned then None else Some(Coverage(planned, |Seen(results)|))
  }

  /** Counts each coordinate once. */
  method CalculateCoverage(results: seq<Evaluation>, planned: nat) returns (r: Option<Coverage>)
    ensures r == CoverageOf(results, planned)
  {
    var completed: set<Coordinate> := {};
    for i := 0 to |results|
      invariant completed == Seen(results[..i])
    {
      assert results[..i + 1] == results[..i] + [results[i]];
      completed := completed + {results[i].at};
    }
    assert results[..|results|] == results;
    r := if planned == 0 || |completed| > planned then None else Some(Coverage(planned, |completed|));
  }

  /** The report says that everything planned is done. */
  predicate ReportsComplete(results: seq<Evaluation>, planned: nat) {
    CoverageOf(results, planned) == Some(Coverage(planned, planned))
  }

  /** Every planned coordinate has a result. */
  predicate Complete(results: seq<Evaluation>, plan: set<Coordinate>) {
    forall c :: c in plan ==> exists i :: 0 <= i < |results| && results[i].at == c
  }

  /** The planned coordinates without a result. */
  function Missing(results: seq<Evaluation>, plan: set<Coordinate>): set<Coordinate> { plan - Seen(results) }

  /** The coordinates with a result that nobody planned. */
  function Stray(results: seq<Evaluation>, plan: set<Coordinate>): set<Coordinate> { Seen(results) - plan }

  lemma SizesBalance(results: seq<Evaluation>, plan: set<Coordinate>)
    ensures |Seen(results)| + |Missing(results, plan)| == |plan| + |Stray(results, plan)|
  {
    var seen := Seen(results);
    assert seen == (seen * plan) + (seen - plan) && plan == (seen * plan) + (plan - seen);
    assert |seen| == |seen * plan| + |seen - plan| && |plan| == |seen * plan| + |plan - seen|;
  }

  lemma CompleteMissing(results: seq<Evaluation>, plan: set<Coordinate>)
    ensures Complete(results, plan) <==> |Missing(results, plan)| == 0
  {
    if |Missing(results, plan)| == 0 {
      assert Missing(results, plan) == {};
      forall c | c in plan ensures exists i :: 0 <= i < |results| && results[i].at == c {
        assert c !in Missing(results, plan);
        assert c in Seen(results);
      }
    }
    if Complete(results, plan) {
      forall c | c in plan ensures c in Seen(results) { }
      assert Missing(results, plan) == {};
    }
  }

  /** For all results and plans: the report is refused exactly for an empty plan or more stray than missing
      coordinates, and says complete exactly when there are as many stray as missing ones. */
  lemma ReportExactly(results: seq<Evaluation>, plan: set<Coordinate>)
    ensures CoverageOf(results, |plan|).None? <==>
            plan == {} || |Stray(results, plan)| > |Missing(results, plan)|
    ensures ReportsComplete(results, |plan|) <==>
            plan != {} && |Stray(results, plan)| == |Missing(results, plan)|
  {
    SizesBalance(results, plan);
    assert |plan| == 0 <==> plan == {};
  }

  /** So the report is right about completeness if and only if something was planned and no result is stray, or
      some planned one is missing and the numbers of stray and missing ones differ. */
  lemma CoverageExactly(results: seq<Evaluation>, plan: set<Coordinate>)
    ensures (ReportsComplete(results, |plan|) <==> Complete(results, plan)) <==>
            plan != {}
            && (|Stray(results, plan)| == 0
                || (|Missing(results, plan)| > 0 && |Missing(results, plan)| != |Stray(results, plan)|))
    ensures plan != {} && Stray(results, plan) == {} ==>
            CoverageOf(results, |plan|) == Some(Coverage(|plan|, |plan * Seen(results)|))
  {
    ReportExactly(results, plan);
    CompleteMissing(results, plan);
    if Stray(results, plan) == {} {
      forall c | c in Seen(results) ensures c in plan { assert c !in Stray(results, plan); }
      assert plan * Seen(results) == Seen(results);
    }
  }

  /** Results that are redelivered, in any order and number, are reported as if they came once. */
  lemma CoverageIgnoresRedelivery(results: seq<Evaluation>, others: seq<Evaluation>, planned: nat)
    requires forall i :: 0 <= i < |results| ==> exists j :: 0 <= j < |others| && others[j].at == results[i].at
    requires forall j :: 0 <= j < |others| ==> exists i :: 0 <= i < |results| && results[i].at == others[j].at
    ensures CoverageOf(results, planned) == CoverageOf(others, planned)
  {
    forall i | 0 <= i < |results| ensures results[i].at in Seen(others) { }
    forall j | 0 <= j < |others| ensures others[j].at in Seen(results) { }
    assert Seen(results) == Seen(others);
  }

  /** Two planned evaluations, one of them done and one result that nobody planned: reported as complete. */
  lemma OffPlanCounts()
    ensures var done, missing, stray := Coordinate("r", "a", Iac), Coordinate("r", "b", Iac), Coordinate("r", "c", Iac);
            var results := [Evaluation(done, "PASS"), Evaluation(stray, "PASS")];
            ReportsComplete(results, |{done, missing}|) && !Complete(results, {done, missing})
  {
    var done, missing, stray := Coordinate("r", "a", Iac), Coordinate("r", "b", Iac), Coordinate("r", "c", Iac);
    var results, plan := [Evaluation(done, "PASS"), Evaluation(stray, "PASS")], {done, missing};
    assert "a" != "b" && "a" != "c" && "b" != "c" by {
      assert "a"[0] != "b"[0] && "a"[0] != "c"[0] && "b"[0] != "c"[0];
    }
    assert results[0].at == done && results[1].at == stray;
    assert Seen(results) == {done, stray};
    assert Missing(results, plan) == {missing} && Stray(results, plan) == {stray};
    ReportExactly(results, plan);
    CompleteMissing(results, plan);
  }

  // ---- which perspectives a rule is evaluated in -------------------------------------------------------

  /** A worker plans a perspective exactly when it has a runner for it and the rule's type asks for it; drift when it
      derives drift and the rule is evaluated from both sides. */
  lemma PlansExactly(w: Planner, r: Rule, p: Perspective)
    requires Made(w)
    ensures p in PerspectivesFor(w, r) <==>
            match p
            case Iac => Iac in w.available && r.execution in {Legacy, IacOnly, Hybrid}
            case AwsActual => AwsActual in w.available && r.execution in {Legacy, AwsOnly, Hybrid}
            case Manual => Manual in w.available && r.execution == ManualOnly
            case Drift => w.deriveDrift && r.execution in {Legacy, Hybrid}
  {
    EvaluatedHere(w, r);
    PlannedIs(w, r);
    var evaluated := Select(p => p in w.available, EvaluatedPerspectives(r));
    assert p in PerspectivesFor(w, r) <==> p in evaluated || (p == Drift && w.deriveDrift && IsDriftEligible(r));
  }

  /** Drift is planned behind the evaluated perspectives. */
  lemma PlannedIs(w: Planner, r: Rule)
    requires Made(w)
    ensures PerspectivesFor(w, r) ==
            Select(p => p in w.available, EvaluatedPerspectives(r))
            + (if w.deriveDrift && r.execution in {Legacy, Hybrid} then [Drift] else [])
  {
    EvaluatedHere(w, r);
  }

  /** What is left of a rule's perspectives on a worker. */
  lemma EvaluatedHere(w: Planner, r: Rule)
    ensures var runs := p => p in w.available;
            Select(runs, EvaluatedPerspectives(r)) == match r.execution
                                                      case Legacy => If(runs, Iac) + If(runs, AwsActual)
                                                      case Hybrid => If(runs, Iac) + If(runs, AwsActual)
                                                      case IacOnly => If(runs, Iac)
                                                      case AwsOnly => If(runs, AwsActual)
                                                      case ManualOnly => If(runs, Manual)
  {
    var runs := p => p in w.available;
    SelectOne(runs, Iac);
    SelectOne(runs, AwsActual);
    SelectOne(runs, Manual);
    SelectTwo(runs, Iac, AwsActual);
  }

  function If<T>(p: T -> bool, x: T): seq<T> { if p(x) then [x] else [] }

  lemma SelectOne<T(!new)>(p: T -> bool, x: T)
    ensures Select(p, [x]) == If(p, x)
  {
    assert [x][..0] == [];
  }

  lemma SelectTwo<T(!new)>(p: T -> bool, x: T, y: T)
    ensures Select(p, [x, y]) == If(p, x) + If(p, y)
  {
    assert [x, y][..1] == [x];
    SelectOne(p, x);
  }

  /** On a worker with all runners. */
  lemma PlansOf(w: Planner, r: Rule)
    requires Made(w) && w.deriveDrift && Iac in w.available && AwsActual in w.available && Manual in w.available
    ensures PerspectivesFor(w, r) == match r.execution
                                     case Legacy => [Iac, AwsActual, Drift]
                                     case Hybrid => [Iac, AwsActual, Drift]
                                     case IacOnly => [Iac]
                                     case AwsOnly => [AwsActual]
                                     case ManualOnly => [Manual]
  {
    EvaluatedHere(w, r);
    PlannedIs(w, r);
  }
}
