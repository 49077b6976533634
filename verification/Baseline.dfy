/** The baseline registry built from the standard's controls and the table of automatable controls.

A rule keeps what ties the documents together: its id, the items it cites and its control key.
 */
module Baseline {
  import opened Wrappers
  import opened Sequences
  import opened Sorting
  import opened ControlRows
  import PolicyProfiles
  import Strings
  import Text

  /** One entry of the mapping: a catalog control and the items it is evidence for. */
  datatype Mapped = Mapped(key: string, items: seq<string>)

  /** The operator's tables: the mapping (a dictionary in insertion order), the items not yet supported, the
      catalog's automatable controls, and the inherited remediation eligibility. */
  datatype Tables = Tables(mapping: seq<Mapped>, pending: set<string>, automatable: string -> bool,
                           eligibility: map<string, string>)

  datatype Rule = Rule(id: string, cites: seq<string>, controlKey: string)

  datatype Entry = Entry(controlId: string, rules: seq<string>)

  datatype Registry = Registry(rules: seq<Rule>, controls: seq<Entry>, profile: PolicyProfiles.Profile,
                               remediation: seq<(string, string)>)

  datatype BuildError = Unreadable(reason: ControlRows.Error) | NoControls | BadTables | NoEligibility

  // ---- what the tables must be ---------------------------------------------------------------------------

  ghost predicate EntryOk(t: Tables, ids: seq<string>, m: Mapped) {
    && t.automatable(m.key) && m.items != [] && Distinct(m.items)
    && forall x :: x in m.items ==> x in ids && x !in t.pending
  }

  ghost predicate TablesOk(t: Tables, ids: seq<string>) {
    (forall x :: x in t.pending ==> x in ids) && forall i :: 0 <= i < |t.mapping| ==> EntryOk(t, ids, t.mapping[i])
  }

  function Keys(mapping: seq<Mapped>): seq<string> { Map((m: Mapped) => m.key, mapping) }

  method CheckTables(t: Tables, controls: seq<Control>) returns (ok: bool)
    ensures ok <==> TablesOk(t, Ids(controls))
  {
    var ids := Ids(controls);
    if exists x | x in t.pending :: x !in ids { return false; }
    if exists i, x | 0 <= i < |t.mapping| && x in t.mapping[i].items :: x in t.pending { return false; }
    for i := 0 to |t.mapping|
      invariant forall j :: 0 <= j < i ==> EntryOk(t, ids, t.mapping[j])
    {
      var m := t.mapping[i];
      if !t.automatable(m.key) { return false; }
      var distinct := IsDistinct(m.items);
      if m.items == [] || !distinct { return false; }
      if exists x | x in m.items :: x !in ids { return false; }
    }
    ok := true;
  }

  // ---- the documents -------------------------------------------------------------------------------------

  const RULE_VERSION := "2023-10-31.r2"
  const PROFILE_ID := "profile-isms-p-baseline"
  const PROFILE_VERSION := "v3"
  const SOURCE_ID := "isms-p-2023"
  const SOURCE_VERSION := "2023-10-31"

  /** Control keys of the catalog for what people judge: for good, or until the catalog has the evidence. */
  const MANUAL := "ORGANIZATIONAL_CONTROL_MANUAL_REVIEW"
  const NOT_YET_SUPPORTED := "TECHNICAL_CONTROL_NOT_YET_SUPPORTED"

  function RuleId(x: string): string { "ISMSP-" + x }

  function ManualRule(pending: set<string>, c: Control): Rule {
    Rule(RuleId(c.id), [c.id], if c.id in pending then NOT_YET_SUPPORTED else MANUAL)
  }

  predicate ItemsBelow(a: string, b: string) { Text.Below(Numbers(a), Numbers(b)) }

  function AutomaticRule(m: Mapped): Rule { Rule(RuleId(m.key), Sort(ItemsBelow, m.items), m.key) }

  predicate KeysBelow(a: Mapped, b: Mapped) { Strings.Below(a.key, b.key) }

  /** The rules of the mapping that cite an item, in the order of the mapping. */
  function Citing(mapping: seq<Mapped>, item: string): seq<string> {
    if mapping == [] then []
    else
      var last := mapping[|mapping| - 1];
      Citing(mapping[..|mapping| - 1], item) + (if item in last.items then [RuleId(last.key)] else [])
  }

  function EntryOf(mapping: seq<Mapped>, c: Control): Entry {
    Entry("ISMS-P-" + c.id, [RuleId(c.id)] + Citing(mapping, c.id))
  }

  function RefOf(r: Rule): PolicyProfiles.RuleRef { PolicyProfiles.RuleRef(r.id, RULE_VERSION) }

  function ProfileOf(rules: seq<Rule>): PolicyProfiles.Profile {
    var refs := Map(RefOf, rules);
    PolicyProfiles.Profile(PROFILE_ID, PROFILE_VERSION, refs,
                           [PolicyProfiles.Segment(PolicyProfiles.IsmsP, SOURCE_ID, SOURCE_VERSION, refs)])
  }

  function RulesOf(controls: seq<Control>, t: Tables): seq<Rule> {
    Map((c: Control) => ManualRule(t.pending, c), controls) + Map(AutomaticRule, Sort(KeysBelow, t.mapping))
  }

  function EligibilityOf(t: Tables, m: Mapped): (string, string) {
    (RuleId(m.key), if m.key in t.eligibility then t.eligibility[m.key] else "")
  }

  function EligibilitiesOf(t: Tables, mapping: seq<Mapped>): seq<(string, string)> {
    Map((m: Mapped) => EligibilityOf(t, m), mapping)
  }

  function RegistryOf(controls: seq<Control>, t: Tables): Registry {
    var mapping := Sort(KeysBelow, t.mapping);
    Registry(RulesOf(controls, t), Map((c: Control) => EntryOf(mapping, c), controls),
             ProfileOf(RulesOf(controls, t)), EligibilitiesOf(t, mapping))
  }

  // ---- the inverted index --------------------------------------------------------------------------------

  function Listed(index: map<string, seq<string>>, item: string): seq<string> {
    if item in index then index[item] else []
  }

  ghost predicate Holds(index: map<string, seq<string>>, wanted: string -> seq<string>) {
    forall item :: Listed(index, item) == wanted(item)
  }

  lemma AddedHolds(index: map<string, seq<string>>, x: string, rule: string,
                   was: string -> seq<string>, now: string -> seq<string>)
    requires Holds(index, was) && forall item :: now(item) == if item == x then was(item) + [rule] else was(item)
    ensures Holds(index[x := Listed(index, x) + [rule]], now)
  {
    assert Listed(index, x) == was(x);
    forall item ensures Listed(index[x := Listed(index, x) + [rule]], item) == now(item) {
      assert Listed(index, item) == was(item);
    }
  }

  /** What the index must list once `before` and the first items of the next rule are done. */
  function Wanted(before: seq<Mapped>, rule: string, items: seq<string>, item: string): seq<string> {
    Citing(before, item) + (if item in items then [rule] else [])
  }

  lemma WantedStep(before: seq<Mapped>, rule: string, items: seq<string>, j: nat, item: string)
    requires Distinct(items) && j < |items|
    ensures Wanted(before, rule, items[..j + 1], item) ==
            if item == items[j] then Wanted(before, rule, items[..j], item) + [rule]
            else Wanted(before, rule, items[..j], item)
  {
    assert items[..j + 1] == items[..j] + [items[j]];
    assert items[j] !in items[..j];
  }

  lemma HoldsAtStart(index: map<string, seq<string>>, rule: string, items: seq<string>, before: seq<Mapped>)
    requires Holds(index, item => Citing(before, item))
    ensures Holds(index, item => Wanted(before, rule, items[..0], item))
  {
    forall item ensures Listed(index, item) == Wanted(before, rule, items[..0], item) {
      assert Listed(index, item) == Citing(before, item);
    }
  }

  method IndexRule(index: map<string, seq<string>>, rule: string, items: seq<string>, ghost before: seq<Mapped>)
    returns (r: map<string, seq<string>>)
    requires Distinct(items) && Holds(index, item => Citing(before, item))
    ensures Holds(r, item => Wanted(before, rule, items, item))
  {
    r := index;
    HoldsAtStart(r, rule, items, before);
    for j := 0 to |items|
      invariant Holds(r, item => Wanted(before, rule, items[..j], item))
    {
      forall item ensures Wanted(before, rule, items[..j + 1], item) ==
        if item == items[j] then Wanted(before, rule, items[..j], item) + [rule]
        else Wanted(before, rule, items[..j], item)
      {
        WantedStep(before, rule, items, j, item);
      }
      AddedHolds(r, items[j], rule, item => Wanted(before, rule, items[..j], item),
                 item => Wanted(before, rule, items[..j + 1], item));
      r := r[items[j] := Listed(r, items[j]) + [rule]];
    }
    assert items[..|items|] == items;
  }

  // ---- building ------------------------------------------------------------------------------------------

  lemma ItemsOrder()
    ensures TotalPreorder(ItemsBelow)
  {
    forall a, b ensures ItemsBelow(a, b) || ItemsBelow(b, a) { Text.BelowTotal(Numbers(a), Numbers(b)); }
    forall a, b, c | ItemsBelow(a, b) && ItemsBelow(b, c) ensures ItemsBelow(a, c) {
      Text.BelowTransitive(Numbers(a), Numbers(b), Numbers(c));
    }
  }

  lemma KeysOrder()
    ensures TotalPreorder(KeysBelow)
  {
    Strings.BelowOrder();
  }

  /** The cited items are the mapped ones, each once. */
  lemma CitesExactly(m: Mapped)
    ensures forall x :: x in AutomaticRule(m).cites <==> x in m.items
    ensures Distinct(m.items) ==> Distinct(AutomaticRule(m).cites)
  {
    ItemsOrder();
    SortIsStable(ItemsBelow, m.items);
    forall x ensures x in AutomaticRule(m).cites <==> x in m.items {
      assert x in multiset(AutomaticRule(m).cites) <==> x in multiset(m.items);
    }
    if Distinct(m.items) { DistinctMultiset(m.items, AutomaticRule(m).cites); }
  }

  lemma SortedMapping(t: Tables)
    ensures forall m :: m in Sort(KeysBelow, t.mapping) <==> m in t.mapping
    ensures multiset(Sort(KeysBelow, t.mapping)) == multiset(t.mapping)
  {
    KeysOrder();
    SortIsStable(KeysBelow, t.mapping);
    forall m ensures m in Sort(KeysBelow, t.mapping) <==> m in t.mapping {
      assert m in multiset(Sort(KeysBelow, t.mapping)) <==> m in multiset(t.mapping);
    }
  }

  method ManualRules(controls: seq<Control>, t: Tables) returns (rules: seq<Rule>)
    ensures rules == Map((c: Control) => ManualRule(t.pending, c), controls)
  {
    rules := [];
    for i := 0 to |controls|
      invariant rules == Map((c: Control) => ManualRule(t.pending, c), controls[..i])
    {
      MapStep((c: Control) => ManualRule(t.pending, c), controls, i);
      rules := rules + [ManualRule(t.pending, controls[i])];
    }
    assert controls[..|controls|] == controls;
  }

  lemma CitingStep(mapping: seq<Mapped>, k: nat, item: string)
    requires k < |mapping|
    ensures Citing(mapping[..k + 1], item) ==
            Wanted(mapping[..k], RuleId(mapping[k].key), AutomaticRule(mapping[k]).cites, item)
  {
    assert mapping[..k + 1][..k] == mapping[..k];
    CitesExactly(mapping[k]);
  }

  lemma CitingHolds(index: map<string, seq<string>>, mapping: seq<Mapped>, k: nat)
    requires k < |mapping|
    requires var rule := AutomaticRule(mapping[k]);
             Holds(index, item => Wanted(mapping[..k], rule.id, rule.cites, item))
    ensures Holds(index, item => Citing(mapping[..k + 1], item))
  {
    var rule := AutomaticRule(mapping[k]);
    forall item ensures Listed(index, item) == Citing(mapping[..k + 1], item) {
      assert Listed(index, item) == Wanted(mapping[..k], rule.id, rule.cites, item);
      CitingStep(mapping, k, item);
    }
  }

  method AutomaticRules(mapping: seq<Mapped>) returns (rules: seq<Rule>, index: map<string, seq<string>>)
    requires forall m :: m in mapping ==> Distinct(m.items)
    ensures rules == Map(AutomaticRule, mapping) && Holds(index, item => Citing(mapping, item))
  {
    rules, index := [], map[];
    for k := 0 to |mapping|
      invariant rules == Map(AutomaticRule, mapping[..k]) && Holds(index, item => Citing(mapping[..k], item))
    {
      MapStep(AutomaticRule, mapping, k);
      CitesExactly(mapping[k]);
      var rule := AutomaticRule(mapping[k]);
      index := IndexRule(index, rule.id, rule.cites, mapping[..k]);
      CitingHolds(index, mapping, k);
      rules := rules + [rule];
    }
    assert mapping[..|mapping|] == mapping;
  }

  method Entries(controls: seq<Control>, index: map<string, seq<string>>, ghost mapping: seq<Mapped>)
    returns (entries: seq<Entry>)
    requires Holds(index, item => Citing(mapping, item))
    ensures entries == Map((c: Control) => EntryOf(mapping, c), controls)
  {
    entries := [];
    for i := 0 to |controls|
      invariant entries == Map((c: Control) => EntryOf(mapping, c), controls[..i])
    {
      var c := controls[i];
      MapStep((c: Control) => EntryOf(mapping, c), controls, i);
      assert Listed(index, c.id) == Citing(mapping, c.id);
      entries := entries + [Entry("ISMS-P-" + c.id, [RuleId(c.id)] + Listed(index, c.id))];
    }
    assert controls[..|controls|] == controls;
  }

  lemma EligibilityStep(t: Tables, mapping: seq<Mapped>, i: nat)
    requires i < |mapping|
    ensures EligibilitiesOf(t, mapping[..i + 1]) == EligibilitiesOf(t, mapping[..i]) + [EligibilityOf(t, mapping[i])]
  {
    MapStep((m: Mapped) => EligibilityOf(t, m), mapping, i);
  }

  method Remediation(mapping: seq<Mapped>, t: Tables) returns (r: Result<seq<(string, string)>, BuildError>)
    ensures r.Ok? <==> forall i :: 0 <= i < |mapping| ==> mapping[i].key in t.eligibility
    ensures r.Ok? ==> r.value == EligibilitiesOf(t, mapping)
    ensures r.Err? ==> r.reason == NoEligibility
  {
    var rows: seq<(string, string)> := [];
    for i := 0 to |mapping|
      invariant forall j :: 0 <= j < i ==> mapping[j].key in t.eligibility
      invariant rows == EligibilitiesOf(t, mapping[..i])
    {
      EligibilityStep(t, mapping, i);
      if mapping[i].key !in t.eligibility { return Err(NoEligibility); }
      rows := rows + [EligibilityOf(t, mapping[i])];
    }
    assert mapping[..|mapping|] == mapping;
    r := Ok(rows);
  }

  /** Controls and tables from which a registry can be built. */
  ghost predicate Buildable(controls: seq<Control>, t: Tables) {
    controls != [] && TablesOk(t, Ids(controls)) && forall m :: m in t.mapping ==> m.key in t.eligibility
  }

  /** The refusal a caller is told of. */
  ghost function WhyNotBuilt(controls: seq<Control>, t: Tables): BuildError {
    if |controls| == 0 then NoControls else if TablesOk(t, Ids(controls)) then NoEligibility else BadTables
  }

  lemma MappingUsable(t: Tables, ids: seq<string>)
    requires TablesOk(t, ids)
    ensures forall m :: m in Sort(KeysBelow, t.mapping) ==> EntryOk(t, ids, m)
  {
    SortedMapping(t);
  }

  method BuildFrom(controls: seq<Control>, t: Tables) returns (r: Result<Registry, BuildError>)
    ensures r.Ok? <==> Buildable(controls, t)
    ensures r.Ok? ==> r.value == RegistryOf(controls, t)
    ensures r.Err? ==> r.reason == WhyNotBuilt(controls, t)
  {
    if controls == [] { return Err(NoControls); }
    var ok := CheckTables(t, controls);
    if !ok { return Err(BadTables); }
    var mapping := Sort(KeysBelow, t.mapping);
    MappingUsable(t, Ids(controls));
    SortedMapping(t);
    var manual := ManualRules(controls, t);
    var automatic, index := AutomaticRules(mapping);
    var entries := Entries(controls, index, mapping);
    var remediation := Remediation(mapping, t);
    if remediation.Err? { return Err(remediation.reason); }
    r := Ok(Registry(manual + automatic, entries, ProfileOf(manual + automatic), remediation.value));
  }

  method Build(heading: string -> Option<string>, rows: seq<Row>, t: Tables) returns (r: Result<Registry, BuildError>)
    ensures r.Ok? <==> Readable(heading, rows) && Buildable(Sort(ByNumbers, Collected(heading, rows)), t)
    ensures r.Ok? ==> r.value == RegistryOf(Sort(ByNumbers, Collected(heading, rows)), t)
    ensures r.Err? && !Readable(heading, rows) ==> r.reason.Unreadable?
    ensures r.Err? && Readable(heading, rows) ==>
              r.reason == WhyNotBuilt(Sort(ByNumbers, Collected(heading, rows)), t)
  {
    var read := ReadControls(heading, rows);
    if read.Err? { return Err(Unreadable(read.reason)); }
    r := BuildFrom(read.value, t);
  }

  // ---- the documents agree -------------------------------------------------------------------------------

  lemma {:induction false} CitingExactly(mapping: seq<Mapped>, item: string, rule: string)
    ensures rule in Citing(mapping, item) <==>
            exists i :: 0 <= i < |mapping| && item in mapping[i].items && rule == RuleId(mapping[i].key)
  {
    if mapping != [] { CitingExactly(mapping[..|mapping| - 1], item, rule); }
  }

  lemma RuleOrigins(controls: seq<Control>, t: Tables, r: Rule)
    ensures r in RulesOf(controls, t) <==>
            (exists c :: c in controls && r == ManualRule(t.pending, c)) ||
            (exists m :: m in t.mapping && r == AutomaticRule(m))
  {
    var manual := (c: Control) => ManualRule(t.pending, c);
    SortedMapping(t);
    InMap(manual, controls, r);
    InMap(AutomaticRule, Sort(KeysBelow, t.mapping), r);
    assert (exists c :: c in controls && r == ManualRule(t.pending, c)) <==>
           (exists c :: c in controls && manual(c) == r);
  }

  /** A rule cites a control when it is the control's own manual rule or maps to it. */
  lemma RuleCites(controls: seq<Control>, t: Tables, c: Control, r: Rule)
    requires r in RulesOf(controls, t) && c.id in r.cites
    ensures r.id == RuleId(c.id) || exists m :: m in t.mapping && r.id == RuleId(m.key) && c.id in m.items
  {
    RuleOrigins(controls, t, r);
    if m :| m in t.mapping && r == AutomaticRule(m) { CitesExactly(m); }
  }

  lemma MappedCites(controls: seq<Control>, t: Tables, c: Control, m: Mapped)
    requires m in t.mapping && c.id in m.items
    ensures AutomaticRule(m) in RulesOf(controls, t) && c.id in AutomaticRule(m).cites
  {
    CitesExactly(m);
    RuleOrigins(controls, t, AutomaticRule(m));
  }

  lemma CitesControl(controls: seq<Control>, t: Tables, c: Control, rule: string)
    requires c in controls
    ensures (exists r :: r in RulesOf(controls, t) && r.id == rule && c.id in r.cites) <==>
            rule == RuleId(c.id) || exists m :: m in t.mapping && rule == RuleId(m.key) && c.id in m.items
  {
    RuleOrigins(controls, t, ManualRule(t.pending, c));
    if r :| r in RulesOf(controls, t) && r.id == rule && c.id in r.cites { RuleCites(controls, t, c, r); }
    if m :| m in t.mapping && rule == RuleId(m.key) && c.id in m.items { MappedCites(controls, t, c, m); }
  }

  lemma CitingOfTables(t: Tables, item: string, rule: string)
    ensures rule in Citing(Sort(KeysBelow, t.mapping), item) <==>
            exists m :: m in t.mapping && rule == RuleId(m.key) && item in m.items
  {
    var mapping := Sort(KeysBelow, t.mapping);
    SortedMapping(t);
    CitingExactly(mapping, item, rule);
    if m :| m in t.mapping && rule == RuleId(m.key) && item in m.items {
      var i :| 0 <= i < |mapping| && mapping[i] == m;
    }
  }

  /** The inverted index agrees with the rules: the entry of a control is there, and it lists a rule exactly
      when that rule cites the control. */
  lemma IndexAgrees(controls: seq<Control>, t: Tables, c: Control, rule: string)
    requires c in controls
    ensures rule in EntryOf(Sort(KeysBelow, t.mapping), c).rules <==>
            exists r :: r in RulesOf(controls, t) && r.id == rule && c.id in r.cites
  {
    CitingOfTables(t, c.id, rule);
    CitesControl(controls, t, c, rule);
  }

  lemma EntriesAreThere(controls: seq<Control>, t: Tables, e: Entry)
    ensures e in RegistryOf(controls, t).controls <==>
            exists c :: c in controls && e == EntryOf(Sort(KeysBelow, t.mapping), c)
  {
    var entry := (c: Control) => EntryOf(Sort(KeysBelow, t.mapping), c);
    InMap(entry, controls, e);
    assert (exists c :: c in controls && e == EntryOf(Sort(KeysBelow, t.mapping), c)) <==>
           (exists c :: c in controls && entry(c) == e);
  }

  // ---- the profile ---------------------------------------------------------------------------------------

  function RefTo(x: string): PolicyProfiles.RuleRef { PolicyProfiles.RuleRef(RuleId(x), RULE_VERSION) }

  lemma RefToInjective(x: string, y: string)
    ensures RefTo(x) == RefTo(y) <==> x == y
  {
    assert RuleId(x)[6..] == x && RuleId(y)[6..] == y;
  }

  function Names(controls: seq<Control>, mapping: seq<Mapped>): seq<string> { Ids(controls) + Keys(mapping) }

  lemma ManualNames(controls: seq<Control>, pending: set<string>)
    ensures Map(RefOf, Map((c: Control) => ManualRule(pending, c), controls)) == Map(RefTo, Ids(controls))
  {
    forall i | 0 <= i < |controls| ensures RefOf(ManualRule(pending, controls[i])) == RefTo(Ids(controls)[i]) { }
  }

  lemma AutomaticNames(mapping: seq<Mapped>)
    ensures Map(RefOf, Map(AutomaticRule, mapping)) == Map(RefTo, Keys(mapping))
  {
    forall i | 0 <= i < |mapping| ensures RefOf(AutomaticRule(mapping[i])) == RefTo(Keys(mapping)[i]) { }
  }

  lemma RefsAreNames(controls: seq<Control>, t: Tables)
    ensures Map(RefOf, RulesOf(controls, t)) == Map(RefTo, Names(controls, Sort(KeysBelow, t.mapping)))
  {
    var mapping := Sort(KeysBelow, t.mapping);
    ManualNames(controls, t.pending);
    AutomaticNames(mapping);
    MapPlus(RefOf, Map((c: Control) => ManualRule(t.pending, c), controls), Map(AutomaticRule, mapping));
    MapPlus(RefTo, Ids(controls), Keys(mapping));
  }

  lemma DistinctRefs(names: seq<string>)
    ensures Distinct(Map(RefTo, names)) <==> Distinct(names)
  {
    forall i, j | 0 <= i < j < |names| ensures Map(RefTo, names)[i] == Map(RefTo, names)[j] <==> names[i] == names[j] {
      RefToInjective(names[i], names[j]);
    }
  }

  lemma DistinctParts(a: seq<string>, b: seq<string>)
    requires Distinct(a) && Distinct(b)
    ensures Distinct(a + b) <==> forall x :: x in b ==> x !in a
  {
    if x :| x in a && x in b {
      var i :| 0 <= i < |a| && a[i] == x;
      var j :| 0 <= j < |b| && b[j] == x;
      assert (a + b)[i] == (a + b)[|a| + j];
    } else {
      forall i, j | 0 <= i < j < |a + b| ensures (a + b)[i] != (a + b)[j] {
        if i < |a| <= j { assert (a + b)[j] in b && (a + b)[i] in a; }
      }
    }
  }

  lemma SortedKeys(t: Tables)
    requires Distinct(Keys(t.mapping))
    ensures Distinct(Keys(Sort(KeysBelow, t.mapping)))
    ensures forall x :: x in Keys(Sort(KeysBelow, t.mapping)) <==> x in Keys(t.mapping)
  {
    SortedMapping(t);
    var sorted := Sort(KeysBelow, t.mapping);
    MapMultiset((m: Mapped) => m.key, sorted, t.mapping);
    DistinctMultiset(Keys(t.mapping), Keys(sorted));
    forall x ensures x in Keys(sorted) <==> x in Keys(t.mapping) {
      assert x in multiset(Keys(sorted)) <==> x in multiset(Keys(t.mapping));
    }
  }

  lemma NotSpace(c: char)
    requires 'a' <= c <= 'z' || '0' <= c <= '9'
    ensures !Strings.IsSpace(c)
  {
  }

  lemma NotEmpty(s: string, c: char)
    requires c in Strings.Strip(s)
    ensures !PolicyProfiles.Blank(s)
  {
  }

  lemma NotBlank(s: string, c: char)
    requires c in s && ('a' <= c <= 'z' || '0' <= c <= '9')
    ensures !PolicyProfiles.Blank(s)
  {
    NotSpace(c);
    Strings.StripKeeps(s, c);
    NotEmpty(s, c);
  }

  /** Rule ids are unique exactly when no catalog control is named like an item. */
  lemma RefsOnce(controls: seq<Control>, t: Tables)
    requires Distinct(Ids(controls)) && Distinct(Keys(t.mapping))
    ensures Distinct(Map(RefOf, RulesOf(controls, t))) <==> forall k :: k in Keys(t.mapping) ==> k !in Ids(controls)
  {
    var mapping := Sort(KeysBelow, t.mapping);
    RefsAreNames(controls, t);
    DistinctRefs(Names(controls, mapping));
    SortedKeys(t);
    DistinctParts(Ids(controls), Keys(mapping));
  }

  lemma NamesUsable()
    ensures !PolicyProfiles.Blank(PROFILE_ID) && !PolicyProfiles.Blank(PROFILE_VERSION)
    ensures !PolicyProfiles.Blank(SOURCE_ID) && !PolicyProfiles.Blank(SOURCE_VERSION)
  {
    assert PROFILE_ID[0] == 'p' && PROFILE_VERSION[0] == 'v' && SOURCE_ID[0] == 'i' && SOURCE_VERSION[0] == '2';
    NotBlank(PROFILE_ID, 'p');
    NotBlank(PROFILE_VERSION, 'v');
    NotBlank(SOURCE_ID, 'i');
    NotBlank(SOURCE_VERSION, '2');
  }

  lemma ProfileChecks(rules: seq<Rule>)
    requires rules != []
    ensures PolicyProfiles.ValidProfile(ProfileOf(rules))
    ensures PolicyProfiles.ValidSegment(ProfileOf(rules).segments[0]) <==> Distinct(Map(RefOf, rules))
  {
    NamesUsable();
    PolicyProfiles.OneSegment(ProfileOf(rules), ProfileOf(rules).segments[0]);
  }

  /** The built profile covers its rules with one segment; the segment lists every rule once, as it must,
      exactly when no catalog control is named like an item. */
  lemma BuiltProfileExactly(controls: seq<Control>, t: Tables)
    requires controls != [] && Distinct(Ids(controls)) && Distinct(Keys(t.mapping))
    ensures PolicyProfiles.ValidProfile(RegistryOf(controls, t).profile)
    ensures PolicyProfiles.ValidSegment(RegistryOf(controls, t).profile.segments[0]) <==>
            forall k :: k in Keys(t.mapping) ==> k !in Ids(controls)
  {
    RefsOnce(controls, t);
    ProfileChecks(RulesOf(controls, t));
  }

  // ---- what the registry says, rule by rule --------------------------------------------------------------

  /** The manual rule of every control: its id, the control it cites, and whether it is manual for now or for good. */
  lemma ManualRulesExactly(controls: seq<Control>, t: Tables, i: nat)
    requires i < |controls|
    ensures var c, g := controls[i], RegistryOf(controls, t);
            && |g.rules| == |controls| + |t.mapping| && |g.controls| == |controls|
            && g.rules[i].id == "ISMSP-" + c.id && g.rules[i].cites == [c.id]
            && (g.rules[i].controlKey == "TECHNICAL_CONTROL_NOT_YET_SUPPORTED" <==> c.id in t.pending)
            && (g.rules[i].controlKey == "ORGANIZATIONAL_CONTROL_MANUAL_REVIEW" <==> c.id !in t.pending)
            && g.controls[i].controlId == "ISMS-P-" + c.id
            && g.controls[i].rules != [] && g.controls[i].rules[0] == "ISMSP-" + c.id
  {
    assert |NOT_YET_SUPPORTED| == 35 && |MANUAL| == 36;
    SortedLength(t);
  }

  lemma SortedLength(t: Tables)
    ensures |Sort(KeysBelow, t.mapping)| == |t.mapping|
  {
  }

  lemma KeysAscend(mapping: seq<Mapped>, i: nat, j: nat)
    requires i < j < |mapping|
    ensures var sorted := Sort(KeysBelow, mapping);
            Text.Precedes(Strings.Points(sorted[i].key), Strings.Points(sorted[j].key))
  {
    var sorted := Sort(KeysBelow, mapping);
    KeysOrder();
    SortIsStable(KeysBelow, mapping);
    assert KeysBelow(sorted[i], sorted[j]);
    Text.BelowExactly(Strings.Points(sorted[i].key), Strings.Points(sorted[j].key));
  }

  lemma RulesOfAt(controls: seq<Control>, t: Tables, sorted: seq<Mapped>, i: nat)
    requires sorted == Sort(KeysBelow, t.mapping) && i < |sorted|
    ensures |RulesOf(controls, t)| == |controls| + |t.mapping|
    ensures RulesOf(controls, t)[|controls| + i] == AutomaticRule(sorted[i])
  {
    SortedLength(t);
    BehindFront(Map((c: Control) => ManualRule(t.pending, c), controls), Map(AutomaticRule, sorted), i);
  }

  lemma RegistryRules(controls: seq<Control>, t: Tables)
    ensures RegistryOf(controls, t).rules == RulesOf(controls, t)
  {
  }

  /** The automatic rules follow the manual ones. */
  lemma AutomaticRuleAt(controls: seq<Control>, t: Tables, i: nat)
    requires i < |t.mapping|
    ensures |RegistryOf(controls, t).rules| == |controls| + |t.mapping|
    ensures RegistryOf(controls, t).rules[|controls| + i] == AutomaticRule(Sort(KeysBelow, t.mapping)[i])
  {
    SortedLength(t);
    RulesOfAt(controls, t, Sort(KeysBelow, t.mapping), i);
    RegistryRules(controls, t);
  }

  lemma BehindFront<T>(front: seq<T>, back: seq<T>, i: nat)
    requires i < |back|
    ensures |front + back| == |front| + |back| && (front + back)[|front| + i] == back[i]
  {
  }

  /** They come in ascending order of their control keys. */
  lemma AutomaticRulesExactly(controls: seq<Control>, t: Tables, i: nat, j: nat)
    requires i < j < |t.mapping|
    ensures |RegistryOf(controls, t).rules| == |controls| + |t.mapping|
    ensures var rules, n := RegistryOf(controls, t).rules, |controls|;
            Text.Precedes(Strings.Points(rules[n + i].controlKey), Strings.Points(rules[n + j].controlKey))
  {
    AutomaticRuleAt(controls, t, i);
    AutomaticRuleAt(controls, t, j);
    KeysAscend(t.mapping, i, j);
  }

  lemma AutomaticRuleIs(m: Mapped)
    ensures AutomaticRule(m).id == "ISMSP-" + m.key && AutomaticRule(m).controlKey == m.key
    ensures multiset(AutomaticRule(m).cites) == multiset(m.items)
    ensures forall i, j :: 0 <= i < j < |m.items| ==>
              Text.Precedes(Numbers(AutomaticRule(m).cites[i]), Numbers(AutomaticRule(m).cites[j]))
  {
    ItemsOrder();
    SortIsStable(ItemsBelow, m.items);
    var cites := AutomaticRule(m).cites;
    forall i, j | 0 <= i < j < |m.items| ensures Text.Precedes(Numbers(cites[i]), Numbers(cites[j])) {
      assert ItemsBelow(cites[i], cites[j]);
      Text.BelowExactly(Numbers(cites[i]), Numbers(cites[j]));
    }
  }

  /** The profile refers to every rule in one version, in one segment of the standard. */
  lemma ProfileExactly(controls: seq<Control>, t: Tables, i: nat)
    requires i < |controls| + |t.mapping|
    ensures var g := RegistryOf(controls, t); var p := g.profile;
            && |p.rules| == |g.rules| == |controls| + |t.mapping|
            && p.rules[i] == PolicyProfiles.RuleRef(g.rules[i].id, "2023-10-31.r2")
            && p.id == "profile-isms-p-baseline" && p.version == "v3"
            && p.segments == [PolicyProfiles.Segment(PolicyProfiles.IsmsP, "isms-p-2023", "2023-10-31", p.rules)]
  {
    SortedLength(t);
  }

  /** Every mapped control, and no other, inherits the eligibility the tables give it. */
  lemma RemediationExactly(controls: seq<Control>, t: Tables, row: (string, string))
    requires Buildable(controls, t)
    ensures row in RegistryOf(controls, t).remediation <==>
            exists m :: m in t.mapping && row == ("ISMSP-" + m.key, t.eligibility[m.key])
  {
    var f := (m: Mapped) => EligibilityOf(t, m);
    SortedMapping(t);
    InMap(f, Sort(KeysBelow, t.mapping), row);
    if m :| m in t.mapping && row == ("ISMSP-" + m.key, t.eligibility[m.key]) { assert f(m) == row; }
    if x :| x in Sort(KeysBelow, t.mapping) && f(x) == row {
      assert x in t.mapping && row == ("ISMSP-" + x.key, t.eligibility[x.key]);
    }
  }
}
