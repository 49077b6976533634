/** Where the projection rule is stated twice, and what each statement is blind to.

The customer-side script carries its own copy of the projection for repositories without the
platform package.  The two accept different documents; where both accept, the bytes are equal.
 */
module Canonicalizers {
  import opened Sorting
  import opened Text
  import opened Wrappers
  import opened Sequences
  import opened Json
  import opened Plan

  datatype InlineReason =
    | NoList | ItemNotAnObject | NotFiniteField | NoStringAddress | ChangeNotAnObject | ActionsMissing | RepeatedAddress

  predicate FiniteTop(e: Value)
    requires e.Object?
  {
    forall f :: f in TopFields() ==> AllFinite(Get(e.fields, f))
  }

  predicate FiniteChange(e: Value)
    requires Shaped(e)
  {
    forall f :: f in ChangeFields() ==> AllFinite(Get(ChangeOf(e), f))
  }

  predicate StringAddress(e: Value)
    requires e.Object?
  {
    Get(e.fields, Address()).String?
  }

  function InlineEntry(item: Value): Result<Value, InlineReason> {
    if !item.Object? then Err(ItemNotAnObject)
    else if !FiniteTop(item) then Err(NotFiniteField)
    else if !StringAddress(item) then Err(NoStringAddress)
    else if !Get(item.fields, Change()).Object? then Err(ChangeNotAnObject)
    else if Actions() !in ChangeOf(item) then Err(ActionsMissing)
    else if !FiniteChange(item) then Err(NotFiniteField)
    else Ok(Allowed(item))
  }

  function InlineEntries(items: seq<Value>): (r: Result<seq<Value>, InlineReason>)
    ensures r.Ok? ==> |r.value| == |items|
  {
    Traverse(InlineEntry, items)
  }

  predicate DistinctAddresses(entries: seq<Value>) {
    forall i, j :: 0 <= i < j < |entries| ==> AddressOf(entries[i]) != AddressOf(entries[j])
  }

  function InlineProject(doc: Value): Result<seq<Value>, InlineReason> {
    if !HasEntries(doc) then Err(NoList)
    else
      var entries := InlineEntries(Entries(doc));
      if entries.Err? then entries
      else if !DistinctAddresses(entries.value) then Err(RepeatedAddress)
      else Ok(Sort(AddressBelow, entries.value))
  }

  function InlineBytes(doc: Value): Result<string, InlineReason> {
    var p := InlineProject(doc);
    if p.Err? then Err(p.reason)
    else
      InlineFinite(doc);
      Ok(Print(Array(p.value)))
  }

  /** The script prefers the platform's function and falls back to its own on any exception. */
  function ScriptBytes(doc: Value): Result<string, InlineReason> {
    var platform := CanonicalBytes(doc);
    if platform.Ok? then Ok(platform.value) else InlineBytes(doc)
  }

  // ---- acceptance, entry by entry ----------------------------------------------------------------

  predicate InlineGood(e: Value) {
    && Shaped(e) && StringAddress(e) && Actions() in ChangeOf(e)
    && FiniteTop(e) && FiniteChange(e)
  }

  lemma InlineEntryGood(e: Value)
    ensures InlineEntry(e).Ok? <==> InlineGood(e)
    ensures InlineEntry(e).Ok? ==> Shaped(e) && InlineEntry(e) == Ok(Allowed(e))
  {
  }

  lemma InlineElementwise(items: seq<Value>)
    ensures InlineEntries(items).Ok? <==> forall i :: 0 <= i < |items| ==> InlineGood(items[i])
    ensures var r := InlineEntries(items);
            r.Ok? ==> forall i :: 0 <= i < |items| ==> Shaped(items[i]) && r.value[i] == Allowed(items[i])
  {
    TraverseElementwise(InlineEntry, items);
    forall i | 0 <= i < |items|
      ensures InlineEntry(items[i]).Ok? <==> InlineGood(items[i])
      ensures InlineEntry(items[i]).Ok? ==> Shaped(items[i]) && InlineEntry(items[i]) == Ok(Allowed(items[i]))
    {
      InlineEntryGood(items[i]);
    }
  }

  lemma AllowedTop(e: Value)
    requires Shaped(e)
    ensures forall f :: f in TopFields() ==> f in Allowed(e).fields && Allowed(e).fields[f] == Get(e.fields, f)
  {
    var p := Allowed(e);
    forall f | f in TopFields() ensures f in p.fields && p.fields[f] == Get(e.fields, f) {
      assert Get(p.fields, f) == Get(e.fields, f);
    }
  }

  lemma AllowedChange(e: Value)
    requires Shaped(e)
    ensures var change := ChangeOf(Allowed(e));
            forall f :: f in ChangeFields() ==> f in change && change[f] == Get(ChangeOf(e), f)
  {
    var change := ChangeOf(Allowed(e));
    forall f | f in ChangeFields() ensures f in change && change[f] == Get(ChangeOf(e), f) {
      assert Get(change, f) == Get(ChangeOf(e), f);
    }
  }

  lemma FiniteAllowed(e: Value)
    requires Shaped(e)
    ensures AllFinite(Allowed(e)) <==> FiniteTop(e) && FiniteChange(e)
  {
    var p := Allowed(e);
    AllowedTop(e);
    AllowedChange(e);
    assert AllFinite(p.fields[Change()]) <==> FiniteChange(e);
    assert AllFinite(p) <==> (forall f :: f in p.fields ==> AllFinite(p.fields[f]));
  }

  lemma PermutedFinite(s: seq<Value>, r: seq<Value>)
    requires multiset(s) == multiset(r)
    ensures AllFinite(Array(r)) <==> forall i :: 0 <= i < |s| ==> AllFinite(s[i])
  {
    AllOfPermutation(s, r, AllFinite);
  }

  lemma AddressSortPermutes(entries: seq<Value>)
    ensures multiset(entries) == multiset(Sort(AddressBelow, entries))
  {
    AddressOrder();
    SortIsStable(AddressBelow, entries);
  }

  lemma SortedFinite(entries: seq<Value>)
    ensures AllFinite(Array(Sort(AddressBelow, entries))) <==> forall i :: 0 <= i < |entries| ==> AllFinite(entries[i])
  {
    AddressSortPermutes(entries);
    PermutedFinite(entries, Sort(AddressBelow, entries));
  }

  lemma InlineFinite(doc: Value)
    requires InlineProject(doc).Ok?
    ensures AllFinite(Array(InlineProject(doc).value))
  {
    var es := Entries(doc);
    InlineElementwise(es);
    forall i | 0 <= i < |es| ensures AllFinite(InlineEntries(es).value[i]) {
      assert InlineGood(es[i]);
      FiniteAllowed(es[i]);
    }
    SortedFinite(InlineEntries(es).value);
  }

  /** The script's own projection as it runs: check and append, compare the addresses, then sort. */
  method RunInlineProject(doc: Value) returns (r: Result<seq<Value>, InlineReason>)
    ensures r == InlineProject(doc)
  {
    if !HasEntries(doc) { return Err(NoList); }
    var items := Entries(doc);
    var projected: seq<Value> := [];
    for i := 0 to |items|
      invariant InlineEntries(items[..i]) == Ok(projected)
    {
      var item := items[i];
      TraverseStep(InlineEntry, items, i);
      if !item.Object? { return Err(ItemNotAnObject); }
      if !FiniteTop(item) { return Err(NotFiniteField); }
      if !StringAddress(item) { return Err(NoStringAddress); }
      if !Get(item.fields, Change()).Object? { return Err(ChangeNotAnObject); }
      if Actions() !in ChangeOf(item) { return Err(ActionsMissing); }
      if !FiniteChange(item) { return Err(NotFiniteField); }
      projected := projected + [Allowed(item)];
    }
    assert items[..|items|] == items;
    if !DistinctAddresses(projected) { return Err(RepeatedAddress); }
    r := Ok(Sort(AddressBelow, projected));
  }

  // ---- where the two agree -------------------------------------------------------------------------

  /** What both canonicalizers ask of a document before they part ways. */
  predicate CommonGround(doc: Value) {
    HasEntries(doc) && forall i :: 0 <= i < |Entries(doc)| ==> InlineGood(Entries(doc)[i])
  }

  /** Every address is non-empty and every `actions` is a list. */
  predicate Strict(doc: Value)
    requires HasEntries(doc)
  {
    forall i :: 0 <= i < |Entries(doc)| ==> HasAddress(Entries(doc)[i]) && GoodEntry(Entries(doc)[i])
  }

  predicate FiniteEntry(e: Value) { Shaped(e) && FiniteTop(e) && FiniteChange(e) }

  lemma ProjectionFinite(es: seq<Value>)
    requires ProjectEntries(es).Ok?
    ensures AllFinite(Array(Sort(AddressBelow, ProjectEntries(es).value))) <==>
            forall i :: 0 <= i < |es| ==> FiniteEntry(es[i])
  {
    ProjectEntriesElementwise(es);
    var p := ProjectEntries(es).value;
    SortedFinite(p);
    forall i | 0 <= i < |es| ensures AllFinite(p[i]) <==> FiniteEntry(es[i]) {
      FiniteAllowed(es[i]);
    }
  }

  /** Being strict supplies what the inline rule asks about addresses and actions. */
  lemma StrictGood(e: Value)
    requires HasAddress(e) && GoodEntry(e)
    ensures InlineGood(e) <==> FiniteEntry(e)
  {
  }

  lemma GroundIsFinite(doc: Value)
    requires HasEntries(doc) && Strict(doc)
    ensures CommonGround(doc) <==> forall i :: 0 <= i < |Entries(doc)| ==> FiniteEntry(Entries(doc)[i])
  {
    var es := Entries(doc);
    forall i | 0 <= i < |es| ensures InlineGood(es[i]) <==> FiniteEntry(es[i]) { StrictGood(es[i]); }
  }

  lemma ProjectFinite(doc: Value)
    requires Project(doc).Ok?
    ensures HasEntries(doc)
    ensures AllFinite(Array(Project(doc).value)) <==>
            forall i :: 0 <= i < |Entries(doc)| ==> FiniteEntry(Entries(doc)[i])
  {
    ProjectionFinite(Entries(doc));
  }

  lemma PlatformAccepts(doc: Value)
    ensures CanonicalBytes(doc).Ok? <==> CommonGround(doc) && Strict(doc)
  {
    if HasEntries(doc) {
      ProjectsIffStrict(doc);
      if Strict(doc) {
        ProjectFinite(doc);
        GroundIsFinite(doc);
      }
    }
  }

  lemma ProjectsIffStrict(doc: Value)
    requires HasEntries(doc)
    ensures Project(doc).Ok? <==> Strict(doc)
  {
    ProjectAccepts(doc);
    var es := Entries(doc);
    assert Strict(doc) <==>
      (forall i :: 0 <= i < |es| ==> GoodEntry(es[i])) && (forall i :: 0 <= i < |es| ==> HasAddress(es[i]));
  }

  lemma InlineAddresses(es: seq<Value>)
    requires InlineEntries(es).Ok?
    ensures DistinctAddresses(InlineEntries(es).value) <==> DistinctAddresses(es)
  {
    InlineElementwise(es);
    forall i | 0 <= i < |es| ensures AddressOf(InlineEntries(es).value[i]) == AddressOf(es[i]) {
      AllowedAddress(es[i]);
    }
  }

  lemma InlineAccepts(doc: Value)
    ensures InlineBytes(doc).Ok? <==> CommonGround(doc) && DistinctAddresses(Entries(doc))
  {
    if HasEntries(doc) {
      var es := Entries(doc);
      InlineElementwise(es);
      if InlineEntries(es).Ok? { InlineAddresses(es); }
    }
  }

  /** Where both accept, they print the same bytes. */
  lemma SameBytes(doc: Value)
    requires CanonicalBytes(doc).Ok? && InlineBytes(doc).Ok?
    ensures CanonicalBytes(doc).value == InlineBytes(doc).value
  {
    var es := Entries(doc);
    ProjectEntriesElementwise(es);
    InlineElementwise(es);
    assert ProjectEntries(es).value == InlineEntries(es).value;
  }

  ghost predicate Agree(doc: Value) {
    var a, b := CanonicalBytes(doc), InlineBytes(doc);
    (a.Ok? <==> b.Ok?) && (a.Ok? && b.Ok? ==> a.value == b.value)
  }

  /** Exactly when the two statements of the rule agree: outside the common ground both reject; inside
      it, being strict must coincide with having distinct addresses. */
  lemma AgreeExactly(doc: Value)
    ensures Agree(doc) <==> (CommonGround(doc) ==> (Strict(doc) <==> DistinctAddresses(Entries(doc))))
  {
    PlatformAccepts(doc);
    InlineAccepts(doc);
    if CanonicalBytes(doc).Ok? && InlineBytes(doc).Ok? { SameBytes(doc); }
  }

  /** In a document whose addresses are distinct and non-empty and whose actions are lists, the two agree. */
  lemma AgreeOnPlans(doc: Value)
    requires HasEntries(doc) ==> Strict(doc) && DistinctAddresses(Entries(doc))
    ensures Agree(doc)
  {
    AgreeExactly(doc);
  }

  function Entry(address: Str, actions: Value): Value {
    Object(map[Address() := String(address), Change() := Object(map[Actions() := actions])])
  }

  /** An empty address passes the script, through its fallback, and not the platform. */
  lemma EmptyAddressDisagrees()
    ensures var doc := Document([Entry([], Array([]))]);
            CanonicalBytes(doc).Err? && InlineBytes(doc).Ok? && ScriptBytes(doc).Ok?
  {
    var e := Entry([], Array([]));
    var doc := Document([e]);
    EntryGood([]);
    assert Entries(doc) == [e] && !HasAddress(Entries(doc)[0]);
    PlatformAccepts(doc);
    InlineAccepts(doc);
  }

  lemma TwiceEntry(e: Value)
    requires InlineGood(e) && GoodEntry(e) && HasAddress(e)
    ensures var doc := Document([e, e]); CommonGround(doc) && Strict(doc) && !DistinctAddresses(Entries(doc))
  {
    var es := Entries(Document([e, e]));
    assert es[0] == es[1] == e;
  }

  /** A repeated address passes the platform and not the script's own rule. */
  lemma RepeatedAddressDisagrees()
    ensures var e := Entry(Lit("a"), Array([]));
            CanonicalBytes(Document([e, e])).Ok? && InlineBytes(Document([e, e])).Err?
  {
    var e := Entry(Lit("a"), Array([]));
    EntryGood(Lit("a"));
    TwiceEntry(e);
    PlatformAccepts(Document([e, e]));
    InlineAccepts(Document([e, e]));
  }

  lemma EntryGood(address: Str)
    ensures var e := Entry(address, Array([])); InlineGood(e) && GoodEntry(e) && AddressOf(e) == address
  {
    var e := Entry(address, Array([]));
    assert Address() != Change();
    forall f | f in TopFields() ensures AllFinite(Get(e.fields, f)) {}
    forall f | f in ChangeFields() ensures AllFinite(Get(ChangeOf(e), f)) {}
  }

  lemma SortKeepsMember(entries: seq<Value>, i: nat)
    requires i < |entries|
    ensures entries[i] in Sort(AddressBelow, entries)
  {
    AddressSortPermutes(entries);
    assert entries[i] in multiset(Sort(AddressBelow, entries));
  }

  lemma InlineMember(es: seq<Value>, i: nat)
    requires InlineEntries(es).Ok? && i < |es|
    ensures Shaped(es[i]) && Allowed(es[i]) in Sort(AddressBelow, InlineEntries(es).value)
  {
    InlineElementwise(es);
    SortKeepsMember(InlineEntries(es).value, i);
  }

  lemma InlineProjectionMembers(doc: Value, i: nat)
    requires InlineProject(doc).Ok? && i < |Entries(doc)|
    ensures Shaped(Entries(doc)[i]) && Allowed(Entries(doc)[i]) in InlineProject(doc).value
  {
    InlineMember(Entries(doc), i);
  }

  /** An entry the platform refuses stays one it refuses after the projection. */
  lemma LaxEntryStays(e: Value, changes: seq<Value>)
    requires Shaped(e) && !(HasAddress(e) && GoodEntry(e)) && Allowed(e) in changes
    ensures CanonicalBytes(Document(changes)).Err?
  {
    AllowedAddress(e);
    AllowedGood(e);
    ProjectAccepts(Document(changes));
    var i :| 0 <= i < |changes| && changes[i] == Allowed(e);
    assert Entries(Document(changes))[i] == Allowed(e);
  }

  /** What the script's own rule projects from a lax document, the platform refuses to project again. */
  lemma FallbackRefused(doc: Value)
    requires InlineProject(doc).Ok? && !Strict(doc)
    ensures CanonicalBytes(Document(InlineProject(doc).value)).Err?
  {
    var i :| 0 <= i < |Entries(doc)| && !(HasAddress(Entries(doc)[i]) && GoodEntry(Entries(doc)[i]));
    InlineProjectionMembers(doc, i);
    LaxEntryStays(Entries(doc)[i], InlineProject(doc).value);
  }

  /** What the script prints: the platform's bytes when it accepts; otherwise the bytes of its own projection,
      exactly for the lax documents with distinct addresses, and that projection the platform refuses. */
  lemma ScriptAgainstPlatform(doc: Value)
    ensures CanonicalBytes(doc).Ok? ==> ScriptBytes(doc) == Ok(CanonicalBytes(doc).value)
    ensures CanonicalBytes(doc).Err? ==>
            (ScriptBytes(doc).Ok? <==> CommonGround(doc) && !Strict(doc) && DistinctAddresses(Entries(doc)))
    ensures CanonicalBytes(doc).Err? && ScriptBytes(doc).Ok? ==>
            && InlineProject(doc).Ok? && AllFinite(Array(InlineProject(doc).value))
            && ScriptBytes(doc).value == Print(Array(InlineProject(doc).value))
            && CanonicalBytes(Document(InlineProject(doc).value)).Err?
  {
    PlatformAccepts(doc);
    InlineAccepts(doc);
    if CanonicalBytes(doc).Err? && ScriptBytes(doc).Ok? {
      InlineFinite(doc);
      FallbackRefused(doc);
    }
  }

  // ---- what neither can see ------------------------------------------------------------------------

  /** The two entries carry the same allow-listed fields. */
  ghost predicate SameAllowed(a: Value, b: Value) {
    && Shaped(a) && Shaped(b)
    && (forall f :: f in TopFields() ==> Get(a.fields, f) == Get(b.fields, f))
    && (forall f :: f in ChangeFields() ==> Get(ChangeOf(a), f) == Get(ChangeOf(b), f))
    && (Actions() in ChangeOf(a) <==> Actions() in ChangeOf(b))
  }

  lemma AllowedDetermined(a: Value, b: Value)
    requires SameAllowed(a, b)
    ensures Allowed(a) == Allowed(b)
  {
    var p, q := Allowed(a), Allowed(b);
    assert ChangeOf(p) == ChangeOf(q) by {
      forall f | f in ChangeFields() ensures ChangeOf(p)[f] == ChangeOf(q)[f] {
        assert Get(ChangeOf(p), f) == Get(ChangeOf(a), f) == Get(ChangeOf(b), f) == Get(ChangeOf(q), f);
      }
    }
    assert p.fields == q.fields by {
      forall f | f in TopFields() ensures p.fields[f] == q.fields[f] {
        assert Get(p.fields, f) == Get(a.fields, f) == Get(b.fields, f) == Get(q.fields, f);
      }
    }
  }

  lemma SameAllowedSameResult(a: Value, b: Value)
    requires SameAllowed(a, b)
    ensures ProjectEntry(a) == ProjectEntry(b) && InlineEntry(a) == InlineEntry(b)
  {
    AllowedDetermined(a, b);
    SameChecks(a, b);
  }

  /** What the two rules look at. */
  lemma SameChecks(a: Value, b: Value)
    requires SameAllowed(a, b)
    ensures (GoodEntry(a) <==> GoodEntry(b)) && (StringAddress(a) <==> StringAddress(b))
    ensures (FiniteTop(a) <==> FiniteTop(b)) && (FiniteChange(a) <==> FiniteChange(b))
  {
    assert Actions() in ChangeFields() && Address() in TopFields();
    assert Get(ChangeOf(a), Actions()) == Get(ChangeOf(b), Actions());
    assert Get(a.fields, Address()) == Get(b.fields, Address());
  }

  lemma SameEntries(es: seq<Value>, fs: seq<Value>)
    requires |es| == |fs| && forall i :: 0 <= i < |es| ==> SameAllowed(es[i], fs[i])
    ensures ProjectEntries(es) == ProjectEntries(fs) && InlineEntries(es) == InlineEntries(fs)
  {
    forall i | 0 <= i < |es|
      ensures ProjectEntry(es[i]) == ProjectEntry(fs[i]) && InlineEntry(es[i]) == InlineEntry(fs[i])
    {
      SameAllowedSameResult(es[i], fs[i]);
    }
    TraverseCongruent(ProjectEntry, es, fs);
    TraverseCongruent(InlineEntry, es, fs);
  }

  lemma SameEntriesSameBytes(a: Value, b: Value)
    requires HasEntries(a) && HasEntries(b) && ProjectEntries(Entries(a)) == ProjectEntries(Entries(b))
    requires InlineEntries(Entries(a)) == InlineEntries(Entries(b))
    ensures CanonicalBytes(a) == CanonicalBytes(b) && InlineBytes(a) == InlineBytes(b)
  {
    assert Project(a) == Project(b) && InlineProject(a) == InlineProject(b);
  }

  /** Fields off the allow-list reach neither canonicalizer, whatever they hold. */
  lemma OffListIgnored(a: Value, b: Value)
    requires HasEntries(a) && HasEntries(b) && |Entries(a)| == |Entries(b)|
    requires forall i :: 0 <= i < |Entries(a)| ==> SameAllowed(Entries(a)[i], Entries(b)[i])
    ensures CanonicalBytes(a) == CanonicalBytes(b) && InlineBytes(a) == InlineBytes(b)
  {
    SameEntries(Entries(a), Entries(b));
    SameEntriesSameBytes(a, b);
  }

  /** Permuting `resource_changes` never changes whether a document is accepted. */
  lemma AcceptanceIgnoresOrder(a: Value, b: Value)
    requires HasEntries(a) && HasEntries(b) && multiset(Entries(a)) == multiset(Entries(b))
    ensures Project(a).Ok? <==> Project(b).Ok?
  {
    ProjectAccepts(a);
    ProjectAccepts(b);
    var es, fs := Entries(a), Entries(b);
    forall e ensures e in es <==> e in fs { assert e in multiset(es) <==> e in multiset(fs); }
    assert Project(a).Ok? <==> forall e :: e in es ==> GoodEntry(e) && HasAddress(e);
    assert Project(b).Ok? <==> forall e :: e in fs ==> GoodEntry(e) && HasAddress(e);
  }

  /** Entries that share an address project alike. */
  ghost predicate TiesAgree(entries: seq<Value>) {
    forall i, j :: 0 <= i < |entries| && 0 <= j < |entries| ==> TieAgrees(entries[i], entries[j])
  }

  ghost predicate TieAgrees(a: Value, b: Value) {
    Shaped(a) && Shaped(b) && AddressOf(a) == AddressOf(b) ==> Allowed(a) == Allowed(b)
  }

  ghost predicate OrderIrrelevant(entries: seq<Value>) {
    forall fs: seq<Value> :: multiset(fs) == multiset(entries) ==> Project(Document(fs)) == Project(Document(entries))
  }

  function AllowedOrSelf(e: Value): Value { if Shaped(e) then Allowed(e) else e }

  lemma ProjectionIsMap(entries: seq<Value>)
    requires ProjectEntries(entries).Ok?
    ensures ProjectEntries(entries).value == Map(AllowedOrSelf, entries)
  {
    ProjectEntriesElementwise(entries);
    var p, m := ProjectEntries(entries).value, Map(AllowedOrSelf, entries);
    forall i | 0 <= i < |entries| ensures p[i] == m[i] {
      assert m[i] == AllowedOrSelf(entries[i]);
    }
  }

  lemma TiedAlike(a: Value, b: Value)
    requires Shaped(a) && Shaped(b) && TieAgrees(a, b)
    requires AddressBelow(Allowed(a), Allowed(b)) && AddressBelow(Allowed(b), Allowed(a))
    ensures Allowed(a) == Allowed(b)
  {
    BelowTotal(AddressOf(Allowed(a)), AddressOf(Allowed(b)));
    AllowedAddress(a);
    AllowedAddress(b);
  }

  lemma ProjectionUniform(es: seq<Value>)
    requires ProjectEntries(es).Ok? && TiesAgree(es)
    ensures Uniform(AddressBelow, ProjectEntries(es).value)
  {
    ProjectEntriesElementwise(es);
    var p := ProjectEntries(es).value;
    forall i, j | 0 <= i < |p| && 0 <= j < |p| && AddressBelow(p[i], p[j]) && AddressBelow(p[j], p[i])
      ensures p[i] == p[j]
    {
      assert TieAgrees(es[i], es[j]);
      TiedAlike(es[i], es[j]);
    }
    UniformByIndex(AddressBelow, p);
  }

  lemma TiesAgreeSuffices(es: seq<Value>, fs: seq<Value>)
    requires Project(Document(es)).Ok? && TiesAgree(es) && multiset(fs) == multiset(es)
    ensures Project(Document(fs)) == Project(Document(es))
  {
    AcceptanceIgnoresOrder(Document(es), Document(fs));
    ProjectionIsMap(es);
    ProjectionIsMap(fs);
    MapMultiset(AllowedOrSelf, es, fs);
    ProjectionUniform(es);
    AddressOrder();
    SortIgnoresOrder(AddressBelow, ProjectEntries(es).value, ProjectEntries(fs).value);
  }

  /** The projected entry that comes first among its ties in the input comes first among them in the output. */
  lemma FirstOfTies(fs: seq<Value>)
    requires Project(Document(fs)).Ok? && fs != [] && Shaped(fs[0])
    ensures var c := Class(AddressBelow, Project(Document(fs)).value, Allowed(fs[0])); c != [] && c[0] == Allowed(fs[0])
  {
    ProjectionIsMap(fs);
    var p := ProjectEntries(fs).value;
    AddressOrder();
    SortIsStable(AddressBelow, p);
    assert p[0] == Allowed(fs[0]);
    BelowTotal(AddressOf(p[0]), AddressOf(p[0]));
    assert Class(AddressBelow, p, p[0]) == Class(AddressBelow, Sort(AddressBelow, p), p[0]);
  }

  /** The platform's stable sort keeps the input order of entries with one address, so the projection of
      an accepted plan ignores the order of its changes exactly when such entries project alike. */
  lemma OrderIrrelevantExactly(es: seq<Value>)
    requires Project(Document(es)).Ok?
    ensures OrderIrrelevant(es) <==> TiesAgree(es)
  {
    if TiesAgree(es) {
      forall fs: seq<Value> | multiset(fs) == multiset(es) ensures Project(Document(fs)) == Project(Document(es)) {
        TiesAgreeSuffices(es, fs);
      }
    }
    if OrderIrrelevant(es) {
      forall i, j | 0 <= i < |es| && 0 <= j < |es| ensures TieAgrees(es[i], es[j]) {
        if Shaped(es[i]) && Shaped(es[j]) && AddressOf(es[i]) == AddressOf(es[j]) { OrderDetectsTie(es, i, j); }
      }
    }
  }

  lemma MovedFirst(es: seq<Value>, i: nat)
    requires Project(Document(es)).Ok? && OrderIrrelevant(es) && i < |es| && Shaped(es[i])
    ensures var c := Class(AddressBelow, Project(Document(es)).value, Allowed(es[i])); c != [] && c[0] == Allowed(es[i])
  {
    var fs := [es[i]] + Without(es, i);
    WithoutMultiset(es, i);
    assert multiset(fs) == multiset(es);
    assert Project(Document(fs)) == Project(Document(es));
    FirstOfTies(fs);
  }

  lemma OrderDetectsTie(es: seq<Value>, i: nat, j: nat)
    requires Project(Document(es)).Ok? && OrderIrrelevant(es)
    requires i < |es| && j < |es| && Shaped(es[i]) && Shaped(es[j]) && AddressOf(es[i]) == AddressOf(es[j])
    ensures Allowed(es[i]) == Allowed(es[j])
  {
    MovedFirst(es, i);
    MovedFirst(es, j);
    AllowedAddress(es[i]);
    AllowedAddress(es[j]);
    SameClass(Project(Document(es)).value, Allowed(es[i]), Allowed(es[j]));
  }

  lemma {:induction false} SameClass(s: seq<Value>, x: Value, y: Value)
    requires AddressOf(x) == AddressOf(y)
    ensures Class(AddressBelow, s, x) == Class(AddressBelow, s, y)
  {
    if s != [] { SameClass(s[1..], x, y); }
  }

  // ---- documents on which the promises fail --------------------------------------------------------

  lemma PairProjects(e: Value, f: Value)
    requires GoodEntry(e) && GoodEntry(f) && HasAddress(e) && HasAddress(f)
    ensures Project(Document([e, f])).Ok?
  {
    ProjectAccepts(Document([e, f]));
    assert Entries(Document([e, f])) == [e, f];
  }

  /** Two accepted entries with one address that project differently: their order shows in the projection. */
  lemma SwapShows(e: Value, f: Value)
    requires GoodEntry(e) && GoodEntry(f) && HasAddress(e) && AddressOf(e) == AddressOf(f) && Allowed(e) != Allowed(f)
    ensures Project(Document([e, f])).Ok? && Project(Document([f, e])).Ok?
    ensures Project(Document([e, f])) != Project(Document([f, e]))
  {
    PairProjects(e, f);
    PairProjects(f, e);
    FirstOfTies([e, f]);
    FirstOfTies([f, e]);
    AllowedAddress(e);
    AllowedAddress(f);
    SameClass(Project(Document([e, f])).value, Allowed(e), Allowed(f));
  }

  /** A plan that creates and deletes under one address, and the same plan with its changes swapped. */
  lemma OrderShows()
    ensures var e, f := Entry(Lit("a"), Array([])), Entry(Lit("a"), Array([String(Lit("delete"))]));
            Project(Document([e, f])).Ok? && Project(Document([e, f])) != Project(Document([f, e]))
  {
    var e, f := Entry(Lit("a"), Array([])), Entry(Lit("a"), Array([String(Lit("delete"))]));
    EntryGood(Lit("a"));
    assert Address() != Change();
    assert Actions() in ChangeFields();
    assert Get(ChangeOf(Allowed(e)), Actions()) == Array([]);
    assert Get(ChangeOf(Allowed(f)), Actions()) == Array([String(Lit("delete"))]);
    SwapShows(e, f);
  }

  lemma LoneEntryAccepted(e: Value)
    requires InlineGood(e) && GoodEntry(e) && HasAddress(e)
    ensures var doc := Document([e]); Entries(doc) == [e] && CanonicalBytes(doc).Ok? && InlineBytes(doc).Ok?
  {
    var doc := Document([e]);
    assert Entries(doc) == [e];
    PlatformAccepts(doc);
    InlineAccepts(doc);
  }

  lemma UntypedRaises<Digest>(doc: Value, sha: string -> Digest)
    requires CanonicalBytes(doc).Ok? && !AllTyped(Project(doc).value)
    ensures var bytes := CanonicalBytes(doc).value;
            var read := ParseValue(bytes);
            && read.Some? && read.value.0.Array?
            && Summarize(IdentityAttributes(), read.value.0.items, sha(bytes), sha) == Err(Unhandled(NoType))
  {
    SummaryOfRecovered(IdentityAttributes(), doc, sha);
  }

  /** A plan whose only change has no type: both rules accept it, its recovered document passes the hash check,
      and then the summary raises. */
  lemma UntypedChangeRaises<Digest>(sha: string -> Digest)
    ensures var doc := Document([Entry(Lit("a"), Array([]))]);
            && CanonicalBytes(doc).Ok? && InlineBytes(doc).Ok?
            && var bytes := CanonicalBytes(doc).value;
               var read := ParseValue(bytes);
               && read.Some? && read.value.0.Array?
               && Summarize(IdentityAttributes(), read.value.0.items, sha(bytes), sha) == Err(Unhandled(NoType))
  {
    var e := Entry(Lit("a"), Array([]));
    EntryGood(Lit("a"));
    LoneEntryAccepted(e);
    UntypedProjection(Document([e]), e);
    UntypedRaises(Document([e]), sha);
  }

  lemma UntypedProjection(doc: Value, e: Value)
    requires HasEntries(doc) && Entries(doc) == [e] && Project(doc).Ok? && Shaped(e) && Type() !in e.fields
    ensures !AllTyped(Project(doc).value)
  {
    ProjectEntriesElementwise([e]);
    SortKeepsMember(ProjectEntries([e]).value, 0);
    StaysUntyped(e);
    var p := Project(doc).value;
    var i :| 0 <= i < |p| && p[i] == Allowed(e);
    assert !Typed(p[i]);
  }

  lemma StaysUntyped(e: Value)
    requires Shaped(e) && Type() !in e.fields
    ensures !Typed(Allowed(e))
  {
    assert Type() in TopFields();
    assert Get(Allowed(e).fields, Type()) == Null;
  }
}
