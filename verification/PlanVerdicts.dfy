/** What the two verdicts on a plan say of its `show -json` document, field by field. */
module PlanVerdicts {
  import opened Text
  import opened Wrappers
  import opened Sequences
  import opened Sorting
  import opened Json
  import opened Plan

  // ---- the document -------------------------------------------------------------------------------------

  ghost predicate HoldsArray(fields: map<Str, Value>, key: string) { Lit(key) in fields && fields[Lit(key)].Array? }

  ghost predicate HoldsObject(fields: map<Str, Value>, key: string) { Lit(key) in fields && fields[Lit(key)].Object? }

  /** The change object of an entry. */
  ghost function ChangeFieldsOf(entry: Value): map<Str, Value>
    requires entry.Object? && HoldsObject(entry.fields, "change")
  {
    entry.fields[Lit("change")].fields
  }

  /** One entry of `resource_changes`. */
  ghost predicate ChangesOf(doc: Value, entry: Value) {
    doc.Object? && HoldsArray(doc.fields, "resource_changes") && entry in doc.fields[Lit("resource_changes")].items
  }

  lemma ChangesAreEntries(doc: Value)
    requires HasEntries(doc)
    ensures forall e :: ChangesOf(doc, e) <==> e in Entries(doc)
  {
  }

  // ---- destructive changes ---------------------------------------------------------------------------------

  /** The change deletes, or replaces what it names a path of. */
  ghost predicate Destroys(change: map<Str, Value>) {
    || (HoldsArray(change, "actions") && String(Lit("delete")) in change[Lit("actions")].items)
    || (HoldsArray(change, "replace_paths") && change[Lit("replace_paths")].items != [])
  }

  ghost predicate EntryDestroys(entry: Value) {
    entry.Object? && HoldsObject(entry.fields, "change") && Destroys(ChangeFieldsOf(entry))
  }

  lemma DestructiveAllowed(e: Value)
    requires GoodEntry(e)
    ensures GoodEntry(Allowed(e)) && (DestructiveEntry(Allowed(e)) <==> EntryDestroys(e))
  {
    AllowedGood(e);
    var change := ChangeOf(e);
    assert Actions() in ChangeFields() && ReplacePaths() in ChangeFields();
    assert Get(ChangeOf(Allowed(e)), Actions()) == Get(change, Actions());
    assert Get(ChangeOf(Allowed(e)), ReplacePaths()) == Get(change, ReplacePaths());
  }

  lemma SameMembersOf(s: seq<Value>, r: seq<Value>, p: Value)
    requires multiset(s) == multiset(r)
    ensures p in s <==> p in r
  {
    assert p in s <==> p in multiset(s);
    assert p in r <==> p in multiset(r);
  }

  lemma ProjectedFrom(es: seq<Value>, p: Value) returns (e: Value)
    requires ProjectEntries(es).Ok? && p in ProjectEntries(es).value
    ensures e in es && Shaped(e) && p == Allowed(e)
  {
    ProjectEntriesElementwise(es);
    var i :| 0 <= i < |es| && ProjectEntries(es).value[i] == p;
    e := es[i];
  }

  lemma ProjectedTo(es: seq<Value>, e: Value)
    requires ProjectEntries(es).Ok? && e in es && Shaped(e)
    ensures Allowed(e) in ProjectEntries(es).value
  {
    ProjectEntriesElementwise(es);
    var i :| 0 <= i < |es| && es[i] == e;
    assert ProjectEntries(es).value[i] == Allowed(e);
  }

  /** Where an entry of the projection comes from. */
  lemma ComesFrom(doc: Value, p: Value) returns (e: Value)
    requires Project(doc).Ok? && p in Project(doc).value
    ensures e in Entries(doc) && Shaped(e) && p == Allowed(e)
  {
    ProjectIsProjected(doc);
    SameMembersOf(Project(doc).value, ProjectEntries(Entries(doc)).value, p);
    e := ProjectedFrom(Entries(doc), p);
  }

  /** Where an entry of the document goes. */
  lemma GoesTo(doc: Value, e: Value)
    requires Project(doc).Ok? && e in Entries(doc)
    ensures Shaped(e) && Allowed(e) in Project(doc).value
  {
    EntriesGood(doc, e);
    ProjectIsProjected(doc);
    SameMembersOf(Project(doc).value, ProjectEntries(Entries(doc)).value, Allowed(e));
    ProjectedTo(Entries(doc), e);
  }

  lemma EntriesGood(doc: Value, e: Value)
    requires Project(doc).Ok? && e in Entries(doc)
    ensures GoodEntry(e) && HasAddress(e)
  {
    ProjectAccepts(doc);
  }

  lemma SomeDestructive(ps: seq<Value>, p: Value)
    requires p in ps && GoodEntry(p) && DestructiveEntry(p)
    ensures exists i :: 0 <= i < |ps| && GoodEntry(ps[i]) && DestructiveEntry(ps[i])
  {
    var i :| 0 <= i < |ps| && ps[i] == p;
  }

  lemma DestructionShows(doc: Value, e: Value)
    requires Project(doc).Ok? && e in Entries(doc) && EntryDestroys(e)
    ensures HasDestructiveChanges(doc) == Ok(true)
  {
    EntriesGood(doc, e);
    DestructiveAllowed(e);
    GoesTo(doc, e);
    SomeDestructive(Project(doc).value, Allowed(e));
  }

  lemma DestructionFound(doc: Value) returns (e: Value)
    requires HasDestructiveChanges(doc) == Ok(true)
    ensures e in Entries(doc) && EntryDestroys(e)
  {
    ProjectIsProjected(doc);
    var p := Project(doc).value;
    assert forall i :: 0 <= i < |p| ==> FixedEntry(p[i]);
    var i :| 0 <= i < |p| && DestructiveEntry(p[i]);
    e := ComesFrom(doc, p[i]);
    EntriesGood(doc, e);
    DestructiveAllowed(e);
  }

  /** The verdict on a document that projects: some change deletes, or replaces a path. */
  lemma DestructiveExactly(doc: Value)
    requires Project(doc).Ok?
    ensures HasDestructiveChanges(doc) == Ok(exists e :: ChangesOf(doc, e) && EntryDestroys(e))
  {
    ChangesAreEntries(doc);
    if HasDestructiveChanges(doc).value {
      var e := DestructionFound(doc);
      assert ChangesOf(doc, e);
    }
    if e :| ChangesOf(doc, e) && EntryDestroys(e) { DestructionShows(doc, e); }
  }

  // ---- the ids a plan touches ------------------------------------------------------------------------------

  /** The state, `after` or `before`, holds the text under the attribute, and it is not blank. */
  ghost predicate Holds(change: map<Str, Value>, state: string, attribute: Str, x: Str) {
    && HoldsObject(change, state)
    && attribute in change[Lit(state)].fields && change[Lit(state)].fields[attribute] == String(x)
    && exists i :: 0 <= i < |x| && !IsSpace(x[i])
  }

  /** `after` speaks first; `before` is asked only when `after` holds nothing. */
  ghost predicate Names(change: map<Str, Value>, attribute: Str, x: Str) {
    || Holds(change, "after", attribute, x)
    || (Holds(change, "before", attribute, x) && forall y :: !Holds(change, "after", attribute, y))
  }

  ghost predicate TypeIs(entry: Value, t: Str) {
    entry.Object? && Lit("type") in entry.fields && entry.fields[Lit("type")] == String(t) && t != []
  }

  ghost predicate EntryNames(table: Table, entry: Value, x: Str) {
    && entry.Object? && HoldsObject(entry.fields, "change")
    && exists t :: TypeIs(entry, t) && t in table && Names(ChangeFieldsOf(entry), table[t], x)
  }

  lemma CandidateHolds(change: map<Str, Value>, state: string, attribute: Str, x: Str)
    ensures Candidate(Get(change, Lit(state)), attribute) == Some(x) <==> Holds(change, state, attribute, x)
  {
    assert IsBlank(x) <==> forall i :: 0 <= i < |x| ==> IsSpace(x[i]);
  }

  lemma CandidateNone(change: map<Str, Value>, state: string, attribute: Str)
    ensures Candidate(Get(change, Lit(state)), attribute).None? <==> forall y :: !Holds(change, state, attribute, y)
  {
    forall y ensures Candidate(Get(change, Lit(state)), attribute) == Some(y) <==> Holds(change, state, attribute, y) {
      CandidateHolds(change, state, attribute, y);
    }
    var c := Candidate(Get(change, Lit(state)), attribute);
    if c.Some? { assert Holds(change, state, attribute, c.value); }
  }

  lemma TypeSame(e: Value, t: Str)
    requires e.Object?
    ensures ResourceType(e) == Some(t) <==> TypeIs(e, t)
  {
  }

  lemma IdentityNames(table: Table, e: Value, x: Str)
    requires Shaped(e) && ResourceType(e).Some?
    ensures ResourceIdentity(table, e) == Some(x) <==> EntryNames(table, e, x)
  {
    var t := ResourceType(e).value;
    TypeSame(e, t);
    forall s | TypeIs(e, s) ensures s == t { TypeSame(e, s); }
    if t in table {
      CandidateHolds(ChangeOf(e), "after", table[t], x);
      CandidateHolds(ChangeOf(e), "before", table[t], x);
      CandidateNone(ChangeOf(e), "after", table[t]);
    }
  }

  lemma AllowedIdentity(table: Table, e: Value)
    requires Shaped(e)
    ensures ResourceType(Allowed(e)) == ResourceType(e)
    ensures ResourceType(e).Some? ==> ResourceIdentity(table, Allowed(e)) == ResourceIdentity(table, e)
  {
    assert Type() in TopFields() && Lit("after") in ChangeFields() && Lit("before") in ChangeFields();
    var p := Allowed(e);
    assert Get(p.fields, Type()) == Get(e.fields, Type());
    assert Get(ChangeOf(p), Lit("after")) == Get(ChangeOf(e), Lit("after"));
    assert Get(ChangeOf(p), Lit("before")) == Get(ChangeOf(e), Lit("before"));
  }

  /** The ids come out exactly for documents that project and whose entries all have a type. */
  lemma MappedAccepts(table: Table, doc: Value)
    ensures MappedIds(table, doc).Ok? <==>
            Project(doc).Ok? && forall e :: ChangesOf(doc, e) ==> exists t :: TypeIs(e, t)
  {
    if Project(doc).Ok? {
      ChangesAreEntries(doc);
      var p := Project(doc).value;
      if AllTyped(p) {
        forall e | ChangesOf(doc, e) ensures exists t :: TypeIs(e, t) { TypedInProjection(table, doc, e); }
      }
      if forall e :: ChangesOf(doc, e) ==> exists t :: TypeIs(e, t) {
        forall i | 0 <= i < |p| ensures Typed(p[i]) { TypedInDocument(table, doc, p[i]); }
      }
    }
  }

  lemma TypedInProjection(table: Table, doc: Value, e: Value)
    requires Project(doc).Ok? && e in Entries(doc) && AllTyped(Project(doc).value)
    ensures exists t :: TypeIs(e, t)
  {
    EntriesGood(doc, e);
    GoesTo(doc, e);
    AllowedIdentity(table, e);
    TypeSame(e, ResourceType(e).value);
  }

  lemma TypedInDocument(table: Table, doc: Value, p: Value)
    requires Project(doc).Ok? && p in Project(doc).value
    requires forall e :: e in Entries(doc) ==> exists t :: TypeIs(e, t)
    ensures Typed(p)
  {
    var e := ComesFrom(doc, p);
    var t :| TypeIs(e, t);
    TypeSame(e, t);
    AllowedIdentity(table, e);
  }

  lemma MappedAre(table: Table, doc: Value)
    requires MappedIds(table, doc).Ok?
    ensures AllIdentifiable(Project(doc).value)
    ensures MappedIds(table, doc).value == SortedKeys(IdentitySet(table, Project(doc).value))
  {
    ProjectIsProjected(doc);
    var p := Project(doc).value;
    forall i | 0 <= i < |p| ensures Identifiable(p[i]) { assert FixedEntry(p[i]) && Typed(p[i]); }
  }

  lemma MappedIsNamed(table: Table, doc: Value, x: Str) returns (e: Value)
    requires MappedIds(table, doc).Ok? && x in MappedIds(table, doc).value
    ensures e in Entries(doc) && EntryNames(table, e, x)
  {
    MappedAre(table, doc);
    var p := Project(doc).value;
    var i :| 0 <= i < |p| && ResourceIdentity(table, p[i]) == Some(x);
    e := NamedInDocument(table, doc, p[i], x);
  }

  lemma NamedIsMapped(table: Table, doc: Value, x: Str, e: Value)
    requires MappedIds(table, doc).Ok? && e in Entries(doc) && EntryNames(table, e, x)
    ensures x in MappedIds(table, doc).value
  {
    MappedAre(table, doc);
    NamedInProjection(table, doc, e, x);
    var p := Project(doc).value;
    var i :| 0 <= i < |p| && p[i] == Allowed(e);
    assert ResourceIdentity(table, p[i]) == Some(x);
  }

  lemma MappedAscend(table: Table, doc: Value)
    requires MappedIds(table, doc).Ok?
    ensures var ids := MappedIds(table, doc).value;
            forall i, j :: 0 <= i < j < |ids| ==> Precedes(ids[i], ids[j]) && ids[i] != ids[j]
  {
    var ids := MappedIds(table, doc).value;
    MappedAre(table, doc);
    forall i, j | 0 <= i < j < |ids| ensures Precedes(ids[i], ids[j]) { BelowExactly(ids[i], ids[j]); }
  }

  /** The ids of a plan, in ascending order and each once: those that some entry names. */
  lemma MappedExactly(table: Table, doc: Value, x: Str)
    requires MappedIds(table, doc).Ok?
    ensures var ids := MappedIds(table, doc).value;
            && (x in ids <==> exists e :: ChangesOf(doc, e) && EntryNames(table, e, x))
            && forall i, j :: 0 <= i < j < |ids| ==> Precedes(ids[i], ids[j]) && ids[i] != ids[j]
  {
    ChangesAreEntries(doc);
    MappedAscend(table, doc);
    if x in MappedIds(table, doc).value {
      var e := MappedIsNamed(table, doc, x);
      assert ChangesOf(doc, e);
    }
    if e :| ChangesOf(doc, e) && EntryNames(table, e, x) { NamedIsMapped(table, doc, x, e); }
  }

  lemma NamedInDocument(table: Table, doc: Value, p: Value, x: Str) returns (e: Value)
    requires Project(doc).Ok? && p in Project(doc).value && Identifiable(p) && ResourceIdentity(table, p) == Some(x)
    ensures e in Entries(doc) && EntryNames(table, e, x)
  {
    e := ComesFrom(doc, p);
    AllowedIdentity(table, e);
    IdentityNames(table, e, x);
  }

  lemma NamedInProjection(table: Table, doc: Value, e: Value, x: Str)
    requires Project(doc).Ok? && e in Entries(doc) && EntryNames(table, e, x)
    ensures Shaped(e) && Allowed(e) in Project(doc).value && Identifiable(Allowed(e))
    ensures ResourceIdentity(table, Allowed(e)) == Some(x)
  {
    EntriesGood(doc, e);
    GoesTo(doc, e);
    var t :| TypeIs(e, t) && t in table && Names(ChangeFieldsOf(e), table[t], x);
    TypeSame(e, t);
    AllowedIdentity(table, e);
    IdentityNames(table, e, x);
  }

  // ---- plans of one change ---------------------------------------------------------------------------------

  function Texts(texts: seq<string>): seq<Value> { Map((t: string) => String(Lit(t)), texts) }

  /** A change of the resource `a`, as `terraform show -json` prints it. */
  function ChangeEntry(kind: string, actions: seq<string>, before: Value, after: Value, paths: Value): Value {
    Object(map[
      Lit("address") := String(Lit("a")),
      Lit("type") := String(Lit(kind)),
      Lit("change") := Object(ChangeFieldsFor(actions, before, after, paths))])
  }

  function ChangeFieldsFor(actions: seq<string>, before: Value, after: Value, paths: Value): map<Str, Value> {
    map[Lit("actions") := Array(Texts(actions)), Lit("before") := before, Lit("after") := after,
        Lit("replace_paths") := paths]
  }

  function PlanOf(kind: string, actions: seq<string>, before: Value, after: Value, paths: Value): Value {
    Document([ChangeEntry(kind, actions, before, after, paths)])
  }

  lemma ChangeEntryFields(kind: string, actions: seq<string>, before: Value, after: Value, paths: Value)
    ensures var e := ChangeEntry(kind, actions, before, after, paths);
            && e.fields[Lit("address")] == String(Lit("a")) && e.fields[Lit("type")] == String(Lit(kind))
            && HoldsObject(e.fields, "change")
            && ChangeFieldsOf(e) == ChangeFieldsFor(actions, before, after, paths)
  {
    assert |Lit("address")| == 7 && |Lit("type")| == 4 && |Lit("change")| == 6;
  }

  lemma ChangeHolds(actions: seq<string>, before: Value, after: Value, paths: Value)
    ensures var change := ChangeFieldsFor(actions, before, after, paths);
            && change[Lit("actions")] == Array(Texts(actions)) && change[Lit("replace_paths")] == paths
            && change[Lit("before")] == before && change[Lit("after")] == after
  {
    assert |Lit("actions")| == 7 && |Lit("before")| == 6 && |Lit("after")| == 5 && |Lit("replace_paths")| == 13;
  }

  lemma PlanProjects(kind: string, actions: seq<string>, before: Value, after: Value, paths: Value)
    ensures var doc, e := PlanOf(kind, actions, before, after, paths), ChangeEntry(kind, actions, before, after, paths);
            Project(doc).Ok? && forall f :: ChangesOf(doc, f) <==> f == e
  {
    var doc, e := PlanOf(kind, actions, before, after, paths), ChangeEntry(kind, actions, before, after, paths);
    ChangeEntryFields(kind, actions, before, after, paths);
    ChangeHolds(actions, before, after, paths);
    assert |Lit("a")| == 1;
    assert GoodEntry(e) && HasAddress(e);
    assert Entries(doc) == [e];
    ProjectAccepts(doc);
    ChangesAreEntries(doc);
  }

  lemma LitInText(texts: seq<string>, t: string)
    ensures t in texts ==> String(Lit(t)) in Texts(texts)
    ensures String(Lit(t)) in Texts(texts) ==> exists i :: 0 <= i < |texts| && Lit(texts[i]) == Lit(t)
  {
    if t in texts {
      var i :| 0 <= i < |texts| && texts[i] == t;
      assert Texts(texts)[i] == String(Lit(t));
    }
    if String(Lit(t)) in Texts(texts) {
      var i :| 0 <= i < |texts| && Texts(texts)[i] == String(Lit(t));
    }
  }

  /** The verdict on one change, whatever it holds. */
  lemma OneChangeDestroys(kind: string, actions: seq<string>, before: Value, after: Value, paths: Value)
    ensures HasDestructiveChanges(PlanOf(kind, actions, before, after, paths)) ==
            Ok("delete" in actions || (paths.Array? && paths.items != []))
  {
    var doc, e := PlanOf(kind, actions, before, after, paths), ChangeEntry(kind, actions, before, after, paths);
    PlanProjects(kind, actions, before, after, paths);
    DestructiveExactly(doc);
    ChangeEntryFields(kind, actions, before, after, paths);
    ChangeHolds(actions, before, after, paths);
    LitInText(actions, "delete");
    if i :| 0 <= i < |actions| && Lit(actions[i]) == Lit("delete") { LitInjective(actions[i], "delete"); }
    assert EntryDestroys(e) <==> "delete" in actions || (paths.Array? && paths.items != []);
  }

  /** Deletions and replacements need a review; creations, updates and reads do not. */
  lemma DestructiveActions(kind: string, before: Value, after: Value)
    ensures HasDestructiveChanges(PlanOf(kind, ["delete"], before, after, Null)) == Ok(true)
    ensures HasDestructiveChanges(PlanOf(kind, ["delete", "create"], before, after, Null)) == Ok(true)
    ensures HasDestructiveChanges(PlanOf(kind, ["create"], before, after, Null)) == Ok(false)
    ensures HasDestructiveChanges(PlanOf(kind, ["update"], before, after, Array([]))) == Ok(false)
    ensures HasDestructiveChanges(PlanOf(kind, ["no-op"], before, after, Null)) == Ok(false)
    ensures HasDestructiveChanges(PlanOf(kind, ["update"], before, after, Array([Array([String(Lit("acl"))])]))) ==
            Ok(true)
  {
    OneChangeDestroys(kind, ["delete"], before, after, Null);
    OneChangeDestroys(kind, ["delete", "create"], before, after, Null);
    OneChangeDestroys(kind, ["create"], before, after, Null);
    OneChangeDestroys(kind, ["update"], before, after, Array([]));
    OneChangeDestroys(kind, ["no-op"], before, after, Null);
    OneChangeDestroys(kind, ["update"], before, after, Array([Array([String(Lit("acl"))])]));
    assert |"delete"| == 6 && |"no-op"| == 5;
    assert "create"[0] != "delete"[0] && "update"[0] != "delete"[0];
  }

  function Only(attribute: string, text: string): Value { Object(map[Lit(attribute) := String(Lit(text))]) }

  lemma OnlyHolds(change: map<Str, Value>, state: string, attribute: string, text: string)
    requires Lit(state) in change && change[Lit(state)] == Only(attribute, text)
    requires text != "" && !IsSpace(text[0] as int)
    ensures Holds(change, state, Lit(attribute), Lit(text))
    ensures forall y :: Holds(change, state, Lit(attribute), y) ==> y == Lit(text)
  {
    assert Lit(text)[0] == text[0] as int;
  }

  lemma LoneId(table: Table, doc: Value, e: Value, x: Str)
    requires MappedIds(table, doc).Ok? && (forall f :: ChangesOf(doc, f) <==> f == e)
    requires forall y :: EntryNames(table, e, y) <==> y == x
    ensures MappedIds(table, doc) == Ok([x])
  {
    var ids := MappedIds(table, doc).value;
    forall y: Str ensures y in ids <==> y == x { OnlyNamed(table, doc, e, x, y); }
    MappedAscend(table, doc);
    Lone(ids, x);
  }

  lemma OnlyNamed(table: Table, doc: Value, e: Value, x: Str, y: Str)
    requires MappedIds(table, doc).Ok? && (forall f :: ChangesOf(doc, f) <==> f == e)
    requires EntryNames(table, e, y) <==> y == x
    ensures y in MappedIds(table, doc).value <==> y == x
  {
    MappedExactly(table, doc, y);
  }

  lemma Lone(s: seq<Str>, x: Str)
    requires (forall y: Str :: y in s <==> y == x) && forall i, j :: 0 <= i < j < |s| ==> s[i] != s[j]
    ensures s == [x]
  {
    assert x in s;
    var k :| 0 <= k < |s| && s[k] == x;
    forall i | 0 <= i < |s| ensures s[i] == x && i == k { assert s[i] in s; }
    assert s[0] == x && s[|s| - 1] == x;
  }

  /** One change of a mapped type names what `after` holds, and without that what `before` holds. */
  lemma OneChangeNames(table: Table, kind: string, actions: seq<string>, before: Value, after: Value,
                       attribute: string, text: string)
    requires kind != "" && Lit(kind) in table && table[Lit(kind)] == Lit(attribute)
    requires text != "" && !IsSpace(text[0] as int)
    requires after == Only(attribute, text) || (after == Null && before == Only(attribute, text))
    ensures MappedIds(table, PlanOf(kind, actions, before, after, Null)) == Ok([Lit(text)])
  {
    var doc, e := PlanOf(kind, actions, before, after, Null), ChangeEntry(kind, actions, before, after, Null);
    PlanProjects(kind, actions, before, after, Null);
    ChangeEntryFields(kind, actions, before, after, Null);
    ChangeHolds(actions, before, after, Null);
    assert |Lit(kind)| == |kind|;
    assert TypeIs(e, Lit(kind));
    MappedAccepts(table, doc);
    NamesOnly(ChangeFieldsOf(e), before, after, attribute, text);
    forall y ensures EntryNames(table, e, y) <==> y == Lit(text) {
      assert EntryNames(table, e, y) <==> Names(ChangeFieldsOf(e), table[Lit(kind)], y);
    }
    LoneId(table, doc, e, Lit(text));
  }

  lemma NamesOnly(change: map<Str, Value>, before: Value, after: Value, attribute: string, text: string)
    requires Lit("after") in change && change[Lit("after")] == after
    requires Lit("before") in change && change[Lit("before")] == before
    requires text != "" && !IsSpace(text[0] as int)
    requires after == Only(attribute, text) || (after == Null && before == Only(attribute, text))
    ensures forall y :: Names(change, Lit(attribute), y) <==> y == Lit(text)
  {
    if after == Only(attribute, text) {
      OnlyHolds(change, "after", attribute, text);
    } else {
      OnlyHolds(change, "before", attribute, text);
    }
  }

  // ---- the types that carry ids ----------------------------------------------------------------------------

  /** The attribute in which Findings find the id of a resource type. */
  ghost predicate CarriesId(kind: string, attribute: string) {
    kind != "" && Lit(kind) in IdentityAttributes() && IdentityAttributes()[Lit(kind)] == Lit(attribute)
  }

  lemma BucketsCarryNames()
    ensures CarriesId("aws_s3_bucket", "bucket")
  {
  }

  lemma DatabasesCarryIdentifiers()
    ensures CarriesId("aws_db_instance", "identifier")
  {
    assert Lit("aws_db_instance")[4] == 'd' as int && Lit("aws_lb_listener")[4] == 'l' as int;
  }

  /** A load balancer and its listeners name one thing, the balancer's ARN. */
  lemma BalancersCarryArns()
    ensures CarriesId("aws_lb", "arn") && CarriesId("aws_lb_listener", "load_balancer_arn")
    ensures CarriesId("aws_alb", "arn") && CarriesId("aws_alb_listener", "load_balancer_arn")
  {
  }

  /** A bucket that gets a new name names the new one. */
  lemma RenamedBucket(kind: string, attribute: string)
    requires kind == "aws_s3_bucket" && attribute == "bucket"
    ensures MappedIds(IdentityAttributes(),
                      PlanOf(kind, ["update"], Only(attribute, "old"), Only(attribute, "new"), Null)) ==
            Ok([Lit("new")])
  {
    BucketsCarryNames();
    OneChangeNames(IdentityAttributes(), kind, ["update"], Only(attribute, "old"), Only(attribute, "new"), attribute,
                   "new");
  }

  /** A deleted bucket still names itself. */
  lemma DeletedBucket(kind: string, attribute: string)
    requires kind == "aws_s3_bucket" && attribute == "bucket"
    ensures MappedIds(IdentityAttributes(), PlanOf(kind, ["delete"], Only(attribute, "old"), Null, Null)) ==
            Ok([Lit("old")])
  {
    BucketsCarryNames();
    OneChangeNames(IdentityAttributes(), kind, ["delete"], Only(attribute, "old"), Null, attribute, "old");
  }

  /** A database names its identifier. */
  lemma CreatedDatabase(kind: string, attribute: string)
    requires kind == "aws_db_instance" && attribute == "identifier"
    ensures MappedIds(IdentityAttributes(), PlanOf(kind, ["create"], Null, Only(attribute, "db"), Null)) ==
            Ok([Lit("db")])
  {
    DatabasesCarryIdentifiers();
    OneChangeNames(IdentityAttributes(), kind, ["create"], Null, Only(attribute, "db"), attribute, "db");
  }

  // ---- the order of the projection -------------------------------------------------------------------------

  /** The projection lists its entries by ascending address. */
  lemma ProjectionAscends(doc: Value, i: nat, j: nat)
    requires Project(doc).Ok? && i < j < |Project(doc).value|
    ensures Precedes(AddressOf(Project(doc).value[i]), AddressOf(Project(doc).value[j]))
  {
    ProjectIsProjected(doc);
    var p := Project(doc).value;
    assert AddressBelow(p[i], p[j]);
    BelowExactly(AddressOf(p[i]), AddressOf(p[j]));
  }

  lemma SortedPair(p: seq<Value>, x: Value, y: Value)
    requires multiset(p) == multiset{x, y} && Sorted(AddressBelow, p)
    requires Precedes(AddressOf(y), AddressOf(x)) && AddressOf(x) != AddressOf(y)
    ensures p == [y, x]
  {
    assert |p| == |multiset(p)| == 2;
    assert p == [p[0], p[1]];
    assert p[0] in multiset(p) && p[1] in multiset(p) && x in multiset(p) && y in multiset(p);
    BelowExactly(AddressOf(y), AddressOf(x));
    if p[0] == x {
      assert p[1] == y;
      assert AddressBelow(p[0], p[1]);
      BelowTotal(AddressOf(x), AddressOf(y));
    }
  }

  lemma TwoItems(s: seq<Value>, x: Value, y: Value)
    requires |s| == 2 && s[0] == x && s[1] == y
    ensures s == [x, y]
  {
  }

  lemma PairProjected(es: seq<Value>, e: Value, f: Value)
    requires es == [e, f] && GoodEntry(e) && GoodEntry(f)
    ensures ProjectEntries(es) == Ok([Allowed(e), Allowed(f)])
  {
    ProjectEntriesElementwise(es);
    TwoItems(ProjectEntries(es).value, Allowed(e), Allowed(f));
  }

  lemma PairAccepted(doc: Value, e: Value, f: Value)
    requires HasEntries(doc) && Entries(doc) == [e, f]
    requires GoodEntry(e) && GoodEntry(f) && HasAddress(e) && HasAddress(f)
    ensures Project(doc).Ok?
  {
    ProjectAccepts(doc);
  }

  lemma ProjectsPair(doc: Value, e: Value, f: Value)
    requires HasEntries(doc) && Entries(doc) == [e, f]
    requires GoodEntry(e) && GoodEntry(f) && HasAddress(e) && HasAddress(f)
    ensures var p := Project(doc);
            p.Ok? && multiset(p.value) == multiset{Allowed(e), Allowed(f)} && Sorted(AddressBelow, p.value)
  {
    PairAccepted(doc, e, f);
    PairProjected(Entries(doc), e, f);
    ProjectIsProjected(doc);
    assert multiset([Allowed(e), Allowed(f)]) == multiset{Allowed(e), Allowed(f)};
  }

  /** Of two changes the one with the smaller address comes first. */
  lemma SmallerAddressFirst(e: Value, f: Value)
    requires GoodEntry(e) && GoodEntry(f) && HasAddress(e) && HasAddress(f)
    requires Precedes(AddressOf(f), AddressOf(e)) && AddressOf(e) != AddressOf(f)
    ensures Project(Document([e, f])) == Ok([Allowed(f), Allowed(e)])
  {
    var doc := Document([e, f]);
    ProjectsPair(doc, e, f);
    AllowedAddress(e);
    AllowedAddress(f);
    SortedPair(Project(doc).value, Allowed(e), Allowed(f));
  }

  function Create(address: string): Value {
    Object(map[Lit("address") := String(Lit(address)),
               Lit("change") := Object(map[Lit("actions") := Array([String(Lit("create"))])])])
  }

  lemma CreateGood(address: string)
    requires address != ""
    ensures GoodEntry(Create(address)) && HasAddress(Create(address)) && AddressOf(Create(address)) == Lit(address)
  {
    assert |Lit("address")| == 7 && |Lit("change")| == 6;
    assert |Lit(address)| == |address|;
  }

  /** Changes at `b` and `a`, in this order, are projected `a` first. */
  lemma ByAscendingAddress()
    ensures Project(Document([Create("b"), Create("a")])) == Ok([Allowed(Create("a")), Allowed(Create("b"))])
  {
    CreateGood("a");
    CreateGood("b");
    assert Lit("a")[..0] == Lit("b")[..0] && Lit("a")[0] < Lit("b")[0];
    SmallerAddressFirst(Create("b"), Create("a"));
  }

  // ---- the fields that are kept ----------------------------------------------------------------------------

  /** What a field holds, and null when it is missing. */
  ghost predicate Keeps(kept: map<Str, Value>, fields: map<Str, Value>, name: string) {
    Lit(name) in kept && kept[Lit(name)] == if Lit(name) in fields then fields[Lit(name)] else Null
  }

  /** The eleven fields of a projected change, and that it has no others. */
  lemma ElevenFields(e: Value)
    requires Shaped(e)
    ensures var p, change := Allowed(e), ChangeOf(Allowed(e));
            && Keeps(p.fields, e.fields, "address") && Keeps(p.fields, e.fields, "mode")
            && Keeps(p.fields, e.fields, "type") && Keeps(p.fields, e.fields, "name")
            && Keeps(p.fields, e.fields, "index") && Keeps(p.fields, e.fields, "provider_name")
            && |p.fields| == 7 && Lit("change") in p.fields && p.fields[Lit("change")] == Object(change)
            && Keeps(change, ChangeOf(e), "actions") && Keeps(change, ChangeOf(e), "before")
            && Keeps(change, ChangeOf(e), "after") && Keeps(change, ChangeOf(e), "after_unknown")
            && Keeps(change, ChangeOf(e), "replace_paths") && |change| == 5
  {
    TopKept(e);
    ChangeKept(e);
    SevenNames();
    FiveNames();
    assert |Allowed(e).fields| == |Allowed(e).fields.Keys| && |ChangeOf(Allowed(e))| == |ChangeOf(Allowed(e)).Keys|;
  }

  lemma TopKept(e: Value)
    requires Shaped(e)
    ensures var p := Allowed(e);
            && Keeps(p.fields, e.fields, "address") && Keeps(p.fields, e.fields, "mode")
            && Keeps(p.fields, e.fields, "type") && Keeps(p.fields, e.fields, "name")
            && Keeps(p.fields, e.fields, "index") && Keeps(p.fields, e.fields, "provider_name")
  {
    forall f | f in TopFields()
      ensures f in Allowed(e).fields && Allowed(e).fields[f] == if f in e.fields then e.fields[f] else Null
    {
      assert Get(Allowed(e).fields, f) == Get(e.fields, f);
    }
    assert Lit("address") in TopFields() && Lit("mode") in TopFields() && Lit("type") in TopFields();
    assert Lit("name") in TopFields() && Lit("index") in TopFields() && Lit("provider_name") in TopFields();
  }

  lemma ChangeKept(e: Value)
    requires Shaped(e)
    ensures var change := ChangeOf(Allowed(e));
            && Keeps(change, ChangeOf(e), "actions") && Keeps(change, ChangeOf(e), "before")
            && Keeps(change, ChangeOf(e), "after") && Keeps(change, ChangeOf(e), "after_unknown")
            && Keeps(change, ChangeOf(e), "replace_paths")
  {
    var change := ChangeOf(Allowed(e));
    forall f | f in ChangeFields()
      ensures f in change && change[f] == if f in ChangeOf(e) then ChangeOf(e)[f] else Null
    {
      assert Get(change, f) == Get(ChangeOf(e), f);
    }
    assert Lit("actions") in ChangeFields() && Lit("before") in ChangeFields() && Lit("after") in ChangeFields();
    assert Lit("after_unknown") in ChangeFields() && Lit("replace_paths") in ChangeFields();
  }

  lemma SevenNames()
    ensures |TopFields() + {Change()}| == 7
  {
    assert Lit("mode")[0] == 'm' as int && Lit("type")[0] == 't' as int && Lit("name")[0] == 'n' as int;
    var a, b, c, d, e, f := Address(), Lit("mode"), Type(), Lit("name"), Lit("index"), Lit("provider_name");
    assert |a| == 7 && |b| == |c| == |d| == 4 && |e| == 5 && |f| == 13;
    assert |{a, b, c, d, e, f}| == 6;
    assert TopFields() == {a, b, c, d, e, f};
  }

  lemma FiveNames()
    ensures |ChangeFields()| == 5
  {
    var a, b, c, d, e := Actions(), Lit("before"), Lit("after"), Lit("after_unknown"), ReplacePaths();
    assert |a| == 7 && |b| == 6 && |c| == 5 && |d| == |e| == 13;
    assert d[0] == 'a' as int && e[0] == 'r' as int;
    assert |{a, b, c, d, e}| == 5;
  }

  // ---- what is refused -------------------------------------------------------------------------------------

  /** An entry with a change object, a list of actions and a named address. */
  ghost predicate Complete(entry: Value) {
    && entry.Object? && HoldsObject(entry.fields, "change") && HoldsArray(ChangeFieldsOf(entry), "actions")
  }

  ghost predicate Addressed(entry: Value) {
    && entry.Object? && Lit("address") in entry.fields && entry.fields[Lit("address")].String?
    && |entry.fields[Lit("address")].s| > 0
  }

  lemma CompleteIsGood(e: Value)
    ensures (GoodEntry(e) <==> Complete(e)) && (HasAddress(e) <==> Addressed(e))
  {
  }

  /** A document projects when `resource_changes` is a list of complete and addressed entries; a list of complete
      entries of which one has no address is refused for that. */
  lemma RefusedForAddress(doc: Value)
    ensures Project(doc).Ok? <==>
            && doc.Object? && HoldsArray(doc.fields, "resource_changes")
            && forall e :: ChangesOf(doc, e) ==> Complete(e) && Addressed(e)
    ensures Project(doc) == Err(NoAddress) <==>
            && doc.Object? && HoldsArray(doc.fields, "resource_changes")
            && (forall e :: ChangesOf(doc, e) ==> Complete(e)) && exists e :: ChangesOf(doc, e) && !Addressed(e)
  {
    forall e ensures (GoodEntry(e) <==> Complete(e)) && (HasAddress(e) <==> Addressed(e)) { CompleteIsGood(e); }
    if HasEntries(doc) {
      ChangesAreEntries(doc);
      ProjectAccepts(doc);
      AllEntries(Entries(doc));
      ProjectEntriesElementwise(Entries(doc));
      EntryReasons(Entries(doc));
    }
  }

  lemma AllEntries(es: seq<Value>)
    ensures (forall i :: 0 <= i < |es| ==> GoodEntry(es[i])) <==> forall e :: e in es ==> GoodEntry(e)
    ensures (forall i :: 0 <= i < |es| ==> HasAddress(es[i])) <==> forall e :: e in es ==> HasAddress(e)
  {
  }

  lemma {:induction false} EntryReasons(es: seq<Value>)
    ensures ProjectEntries(es) != Err(NoAddress)
  {
    if es != [] { EntryReasons(es[..|es| - 1]); }
  }

  /** The bytes are refused for what the projection is refused for, or for a number that is not finite. */
  lemma BytesRefused(doc: Value)
    ensures CanonicalBytes(doc) == Err(NotFinite) <==> Project(doc).Ok? && !AllFinite(Array(Project(doc).value))
    ensures Project(doc).Err? ==> CanonicalBytes(doc) == Err(Project(doc).reason)
  {
    if Project(doc).Err? { ReasonsOfProjection(doc); }
  }

  lemma ReasonsOfProjection(doc: Value)
    ensures Project(doc) != Err(NotFinite)
  {
    if HasEntries(doc) { NeverNotFinite(Entries(doc)); }
  }

  lemma {:induction false} NeverNotFinite(es: seq<Value>)
    ensures ProjectEntries(es) != Err(NotFinite)
  {
    if es != [] { NeverNotFinite(es[..|es| - 1]); }
  }

  /** Why a recovered change list has no summary. */
  lemma SummaryRefused<Digest>(table: Table, changes: seq<Value>, planHash: Digest, sha: string -> Digest)
    ensures var r, bytes := Summarize(table, changes, planHash, sha), CanonicalBytes(Document(changes));
            && (r == Err(NotProjectable) <==> bytes.Err?)
            && (r == Err(HashMismatch) <==> bytes.Ok? && sha(bytes.value) != planHash)
            && (r.Ok? <==> bytes.Ok? && sha(bytes.value) == planHash && MappedIds(table, Document(changes)).Ok?)
  {
  }

  /** The parts of a bucket's configuration all name the bucket, and an instance names its id. */
  lemma BucketPartsCarryNames()
    ensures CarriesId("aws_s3_bucket_acl", "bucket") && CarriesId("aws_s3_bucket_logging", "bucket")
    ensures CarriesId("aws_s3_bucket_ownership_controls", "bucket") && CarriesId("aws_s3_bucket_policy", "bucket")
    ensures CarriesId("aws_s3_bucket_public_access_block", "bucket")
    ensures CarriesId("aws_s3_bucket_server_side_encryption_configuration", "bucket")
    ensures CarriesId("aws_s3_bucket_versioning", "bucket")
    ensures CarriesId("aws_instance", "id")
  {
  }
}
