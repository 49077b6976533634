/** The plan projection behind `plan_hash`: project, sort, print, hash, and read two verdicts off it. */
module Plan {
  import opened Sorting
  import opened Text
  import opened Wrappers
  import opened Sequences
  import opened Json

  datatype Reason =
    | NotAMapping | NoResourceChanges | ResourceChangesNotAList | EntryNotAMapping | NoChange
    | ChangeNotAMapping | ActionsNotAList | NoAddress | NotFinite | NoType

  function Address(): Str { Lit("address") }
  function Type(): Str { Lit("type") }
  function Change(): Str { Lit("change") }
  function Actions(): Str { Lit("actions") }
  function ReplacePaths(): Str { Lit("replace_paths") }
  function ResourceChanges(): Str { Lit("resource_changes") }

  function TopFields(): (fields: set<Str>)
    ensures Change() !in fields
  {
    {Address(), Lit("mode"), Type(), Lit("name"), Lit("index"), Lit("provider_name")}
  }

  function ChangeFields(): set<Str> {
    {Actions(), Lit("before"), Lit("after"), Lit("after_unknown"), ReplacePaths()}
  }

  /** An entry whose `change` is a mapping; only these reach the projection. */
  predicate Shaped(e: Value) {
    e.Object? && Change() in e.fields && e.fields[Change()].Object?
  }

  function ChangeOf(e: Value): map<Str, Value>
    requires Shaped(e)
  {
    e.fields[Change()].fields
  }

  /** The eleven allow-listed fields, a missing one as null. */
  function Allowed(e: Value): (p: Value)
    requires Shaped(e)
    ensures Shaped(p)
    ensures p.fields.Keys == TopFields() + {Change()}
    ensures forall f :: f in TopFields() ==> Get(p.fields, f) == Get(e.fields, f)
    ensures ChangeOf(p).Keys == ChangeFields()
    ensures forall f :: f in ChangeFields() ==> Get(ChangeOf(p), f) == Get(ChangeOf(e), f)
  {
    var top := map f | f in TopFields() :: Get(e.fields, f);
    var change := map f | f in ChangeFields() :: Get(ChangeOf(e), f);
    Object(top[Change() := Object(change)])
  }

  function ProjectEntry(e: Value): Result<Value, Reason> {
    if !e.Object? then Err(EntryNotAMapping)
    else if Change() !in e.fields then Err(NoChange)
    else if !e.fields[Change()].Object? then Err(ChangeNotAMapping)
    else if !Get(ChangeOf(e), Actions()).Array? then Err(ActionsNotAList)
    else Ok(Allowed(e))
  }

  /** The loop over `resource_changes`: the first bad entry decides the error. */
  function ProjectEntries(entries: seq<Value>): (r: Result<seq<Value>, Reason>)
    ensures r.Ok? ==> |r.value| == |entries|
  {
    Traverse(ProjectEntry, entries)
  }

  /** The sort key, or the empty string where the code raises instead. */
  function AddressOf(e: Value): Str {
    if e.Object? && Get(e.fields, Address()).String? then Get(e.fields, Address()).s else []
  }

  predicate AddressBelow(a: Value, b: Value) { StrBelow(AddressOf(a), AddressOf(b)) }

  predicate HasAddress(e: Value) { AddressOf(e) != [] }

  lemma AddressOrder()
    ensures TotalPreorder(AddressBelow)
  {
    StrOrder();
    forall a, b ensures AddressBelow(a, b) || AddressBelow(b, a) {
      assert StrBelow(AddressOf(a), AddressOf(b)) || StrBelow(AddressOf(b), AddressOf(a));
    }
    forall a, b, c | AddressBelow(a, b) && AddressBelow(b, c) ensures AddressBelow(a, c) {
      BelowTransitive(AddressOf(a), AddressOf(b), AddressOf(c));
    }
  }

  function SortByAddress(entries: seq<Value>): Result<seq<Value>, Reason> {
    if exists i :: 0 <= i < |entries| && !HasAddress(entries[i]) then Err(NoAddress)
    else Ok(Sort(AddressBelow, entries))
  }

  predicate HasEntries(doc: Value) {
    doc.Object? && ResourceChanges() in doc.fields && doc.fields[ResourceChanges()].Array?
  }

  function Entries(doc: Value): seq<Value>
    requires HasEntries(doc)
  {
    doc.fields[ResourceChanges()].items
  }

  function Project(doc: Value): Result<seq<Value>, Reason> {
    if !doc.Object? then Err(NotAMapping)
    else if ResourceChanges() !in doc.fields then Err(NoResourceChanges)
    else if !doc.fields[ResourceChanges()].Array? then Err(ResourceChangesNotAList)
    else
      var projected := ProjectEntries(Entries(doc));
      if projected.Err? then projected else SortByAddress(projected.value)
  }

  /** The projection as the code runs it: check and append entry by entry, then sort. */
  method ProjectPlanChanges(doc: Value) returns (r: Result<seq<Value>, Reason>)
    ensures r == Project(doc)
  {
    if !doc.Object? { return Err(NotAMapping); }
    if ResourceChanges() !in doc.fields { return Err(NoResourceChanges); }
    if !doc.fields[ResourceChanges()].Array? { return Err(ResourceChangesNotAList); }
    var entries := Entries(doc);
    var projected: seq<Value> := [];
    for i := 0 to |entries|
      invariant ProjectEntries(entries[..i]) == Ok(projected)
    {
      var entry := entries[i];
      TraverseStep(ProjectEntry, entries, i);
      if !entry.Object? { return Err(EntryNotAMapping); }
      if Change() !in entry.fields { return Err(NoChange); }
      if !entry.fields[Change()].Object? { return Err(ChangeNotAMapping); }
      if !Get(ChangeOf(entry), Actions()).Array? { return Err(ActionsNotAList); }
      projected := projected + [Allowed(entry)];
    }
    assert entries[..|entries|] == entries;
    r := SortByAddress(projected);
  }

  // ---- what the projection accepts and keeps -------------------------------------------------

  predicate GoodEntry(e: Value) { Shaped(e) && Get(ChangeOf(e), Actions()).Array? }

  lemma ProjectEntriesElementwise(entries: seq<Value>)
    ensures ProjectEntries(entries).Ok? <==> forall i :: 0 <= i < |entries| ==> GoodEntry(entries[i])
    ensures var r := ProjectEntries(entries);
            r.Ok? ==> forall i :: 0 <= i < |entries| ==> Shaped(entries[i]) && r.value[i] == Allowed(entries[i])
  {
    TraverseElementwise(ProjectEntry, entries);
    forall e ensures ProjectEntry(e).Ok? <==> GoodEntry(e) {}
    assert (forall i :: 0 <= i < |entries| ==> GoodEntry(entries[i])) <==>
           (forall i :: 0 <= i < |entries| ==> ProjectEntry(entries[i]).Ok?);
  }

  lemma AllowedAddress(e: Value)
    requires Shaped(e)
    ensures AddressOf(Allowed(e)) == AddressOf(e)
  {
    assert Address() in TopFields();
    assert Get(Allowed(e).fields, Address()) == Get(e.fields, Address());
  }

  lemma AllowedGood(e: Value)
    requires Shaped(e)
    ensures GoodEntry(Allowed(e)) <==> GoodEntry(e)
  {
    assert Actions() in ChangeFields();
    assert Get(ChangeOf(Allowed(e)), Actions()) == Get(ChangeOf(e), Actions());
  }

  lemma ProjectionAddresses(entries: seq<Value>)
    requires ProjectEntries(entries).Ok?
    ensures SortByAddress(ProjectEntries(entries).value).Ok? <==>
            forall i :: 0 <= i < |entries| ==> HasAddress(entries[i])
  {
    ProjectEntriesElementwise(entries);
    var p := ProjectEntries(entries).value;
    forall i | 0 <= i < |entries| ensures HasAddress(p[i]) <==> HasAddress(entries[i]) {
      AllowedAddress(entries[i]);
    }
  }

  /** Exactly which documents project. */
  lemma ProjectAccepts(doc: Value)
    ensures Project(doc).Ok? <==>
            && HasEntries(doc)
            && (forall i :: 0 <= i < |Entries(doc)| ==> GoodEntry(Entries(doc)[i]))
            && (forall i :: 0 <= i < |Entries(doc)| ==> HasAddress(Entries(doc)[i]))
  {
    if HasEntries(doc) {
      ProjectEntriesElementwise(Entries(doc));
      if ProjectEntries(Entries(doc)).Ok? { ProjectionAddresses(Entries(doc)); }
    }
  }

  function Document(changes: seq<Value>): Value {
    Object(map[ResourceChanges() := Array(changes)])
  }

  lemma AllowedTwice(e: Value)
    requires Shaped(e)
    ensures Allowed(Allowed(e)) == Allowed(e)
  {
    var p := Allowed(e);
    var q := Allowed(p);
    assert ChangeOf(q) == ChangeOf(p) by {
      forall f | f in ChangeFields() ensures ChangeOf(q)[f] == ChangeOf(p)[f] {
        assert Get(ChangeOf(q), f) == Get(ChangeOf(p), f);
      }
    }
    assert q.fields == p.fields by {
      forall f | f in TopFields() ensures q.fields[f] == p.fields[f] {
        assert Get(q.fields, f) == Get(p.fields, f);
      }
    }
  }

  /** An entry that is exactly its own projection. */
  predicate FixedEntry(e: Value) { GoodEntry(e) && HasAddress(e) && Allowed(e) == e }

  /** A list of projected entries: sorted, and each entry exactly its own projection. */
  ghost predicate Projected(changes: seq<Value>) {
    && Sorted(AddressBelow, changes)
    && forall i :: 0 <= i < |changes| ==> FixedEntry(changes[i])
  }

  lemma ProjectIsProjected(doc: Value)
    requires Project(doc).Ok?
    ensures Projected(Project(doc).value)
    ensures multiset(Project(doc).value) == multiset(ProjectEntries(Entries(doc)).value)
  {
    var es := Entries(doc);
    var p := ProjectEntries(es).value;
    AddressOrder();
    SortIsStable(AddressBelow, p);
    var r := Project(doc).value;
    forall i | 0 <= i < |r| ensures FixedEntry(r[i]) {
      assert r[i] in multiset(p);
      FixedMember(es, r[i]);
    }
  }

  lemma FixedMember(es: seq<Value>, e: Value)
    requires ProjectEntries(es).Ok? && e in ProjectEntries(es).value
    requires forall i :: 0 <= i < |ProjectEntries(es).value| ==> HasAddress(ProjectEntries(es).value[i])
    ensures FixedEntry(e)
  {
    var p := ProjectEntries(es).value;
    var j :| 0 <= j < |p| && p[j] == e;
    ProjectedEntryFixed(es, j);
  }

  lemma ProjectedEntryFixed(entries: seq<Value>, i: nat)
    requires ProjectEntries(entries).Ok? && i < |entries|
    ensures var e := ProjectEntries(entries).value[i]; GoodEntry(e) && Allowed(e) == e
  {
    ProjectEntriesElementwise(entries);
    assert GoodEntry(entries[i]);
    AllowedGood(entries[i]);
    AllowedTwice(entries[i]);
  }

  /** Projecting a projection changes nothing. */
  lemma ProjectIdempotent(doc: Value)
    requires Project(doc).Ok?
    ensures Project(Document(Project(doc).value)) == Project(doc)
  {
    ProjectIsProjected(doc);
    ProjectProjected(Project(doc).value);
  }

  lemma ProjectProjected(changes: seq<Value>)
    requires Projected(changes)
    ensures Project(Document(changes)) == Ok(changes)
  {
    ProjectEntriesElementwise(changes);
    var p := ProjectEntries(changes);
    assert forall i :: 0 <= i < |changes| ==> FixedEntry(changes[i]) && GoodEntry(changes[i]);
    assert p.value == changes by {
      forall i | 0 <= i < |changes| ensures p.value[i] == changes[i] {
        assert FixedEntry(changes[i]);
      }
    }
    AddressOrder();
    SortOfSorted(AddressBelow, changes);
  }

  // ---- canonical bytes -------------------------------------------------------------------------

  function CanonicalBytes(doc: Value): Result<string, Reason> {
    var p := Project(doc);
    if p.Err? then Err(p.reason)
    else if !AllFinite(Array(p.value)) then Err(NotFinite)
    else Ok(Print(Array(p.value)))
  }

  /** Canonical bytes read back as the projected change list. */
  lemma CanonicalBytesParse(doc: Value)
    requires CanonicalBytes(doc).Ok?
    ensures ParseValue(CanonicalBytes(doc).value) == Some((Array(Project(doc).value), ""))
    ensures Ascii(CanonicalBytes(doc).value)
  {
    var v := Array(Project(doc).value);
    PrintParses(v, "");
    assert Print(v) + "" == Print(v);
    PrintAscii(v);
  }

  // ---- verdicts read off the projection -------------------------------------------------------

  predicate DestructiveEntry(e: Value)
    requires GoodEntry(e)
  {
    var paths := Get(ChangeOf(e), ReplacePaths());
    String(Lit("delete")) in Get(ChangeOf(e), Actions()).items || (paths.Array? && |paths.items| > 0)
  }

  /** `has_destructive_changes`: a deleted or replaced resource anywhere in the projection. */
  function HasDestructiveChanges(doc: Value): Result<bool, Reason> {
    var p := Project(doc);
    if p.Err? then Err(p.reason)
    else
      ProjectIsProjected(doc);
      assert forall i :: 0 <= i < |p.value| ==> FixedEntry(p.value[i]);
      Ok(exists i :: 0 <= i < |p.value| && DestructiveEntry(p.value[i]))
  }

  /** Terraform resource type to the attribute that carries the id Findings use.  Every result about
      ids below holds for any such table, so a new resource type needs no new proof. */
  type Table = map<Str, Str>

  function IdentityAttributes(): Table {
    var bucket := Lit("bucket");
    map[Lit("aws_s3_bucket") := bucket,
        Lit("aws_s3_bucket_acl") := bucket,
        Lit("aws_s3_bucket_logging") := bucket,
        Lit("aws_s3_bucket_ownership_controls") := bucket,
        Lit("aws_s3_bucket_policy") := bucket,
        Lit("aws_s3_bucket_public_access_block") := bucket,
        Lit("aws_s3_bucket_server_side_encryption_configuration") := bucket,
        Lit("aws_s3_bucket_versioning") := bucket,
        Lit("aws_instance") := Lit("id"),
        Lit("aws_db_instance") := Lit("identifier"),
        Lit("aws_lb") := Lit("arn"),
        Lit("aws_alb") := Lit("arn"),
        Lit("aws_lb_listener") := Lit("load_balancer_arn"),
        Lit("aws_alb_listener") := Lit("load_balancer_arn")]
  }

  function ResourceType(e: Value): Option<Str>
    requires e.Object?
  {
    var t := Get(e.fields, Type());
    if t.String? && t.s != [] then Some(t.s) else None
  }

  /** A usable id in one state (`after` or `before`) of a change. */
  function Candidate(state: Value, attribute: Str): Option<Str> {
    if !state.Object? then None
    else
      var v := Get(state.fields, attribute);
      if v.String? && !IsBlank(v.s) then Some(v.s) else None
  }

  /** The id one projected change names: `after` first, `before` second. */
  function ResourceIdentity(table: Table, e: Value): Option<Str>
    requires Shaped(e) && ResourceType(e).Some?
  {
    var t := ResourceType(e).value;
    if t !in table then None
    else
      var attribute := table[t];
      var after := Candidate(Get(ChangeOf(e), Lit("after")), attribute);
      if after.Some? then after else Candidate(Get(ChangeOf(e), Lit("before")), attribute)
  }

  predicate Typed(e: Value) { e.Object? && ResourceType(e).Some? }

  predicate AllTyped(changes: seq<Value>) { forall i :: 0 <= i < |changes| ==> Typed(changes[i]) }

  predicate Identifiable(e: Value) { Shaped(e) && Typed(e) }

  predicate AllIdentifiable(changes: seq<Value>) { forall i :: 0 <= i < |changes| ==> Identifiable(changes[i]) }

  /** The ids a list of typed entries names. */
  function IdentitySet(table: Table, changes: seq<Value>): (ids: set<Str>)
    requires AllIdentifiable(changes)
  {
    set i | 0 <= i < |changes| && ResourceIdentity(table, changes[i]).Some? :: ResourceIdentity(table, changes[i]).value
  }

  lemma IdentitySetGrows(table: Table, changes: seq<Value>, n: nat)
    requires n < |changes| && AllIdentifiable(changes[..n + 1])
    ensures AllIdentifiable(changes[..n]) && Identifiable(changes[n])
    ensures IdentitySet(table, changes[..n + 1]) ==
            IdentitySet(table, changes[..n])
            + (match ResourceIdentity(table, changes[n]) case Some(id) => {id} case None => {})
  {
    var more := changes[..n + 1];
    assert forall i :: 0 <= i < n ==> changes[..n][i] == more[i];
    assert more[n] == changes[n];
  }

  /** `mapped_resource_ids`: the sorted distinct ids; a projected entry without a type is an error. */
  function MappedIds(table: Table, doc: Value): Result<seq<Str>, Reason> {
    var p := Project(doc);
    if p.Err? then Err(p.reason)
    else if !AllTyped(p.value) then Err(NoType)
    else
      ProjectIsProjected(doc);
      assert AllIdentifiable(p.value) by {
        forall i | 0 <= i < |p.value| ensures Identifiable(p.value[i]) {
          assert FixedEntry(p.value[i]) && Typed(p.value[i]);
        }
      }
      Ok(SortedKeys(IdentitySet(table, p.value)))
  }

  method MappedResourceIds(table: Table, doc: Value) returns (r: Result<seq<Str>, Reason>)
    ensures r == MappedIds(table, doc)
  {
    var p := ProjectPlanChanges(doc);
    if p.Err? { return Err(p.reason); }
    ProjectIsProjected(doc);
    var ids := CollectIdentities(table, p.value);
    r := if ids.Ok? then Ok(SortedKeys(ids.value)) else Err(ids.reason);
  }

  /** The loop over projected changes: add each id, stop at the first entry without a type. */
  method CollectIdentities(table: Table, changes: seq<Value>) returns (r: Result<set<Str>, Reason>)
    requires forall i :: 0 <= i < |changes| ==> Shaped(changes[i])
    ensures if AllTyped(changes) then AllIdentifiable(changes) && r == Ok(IdentitySet(table, changes))
            else r == Err(NoType)
  {
    var identifiers: set<Str> := {};
    for n := 0 to |changes|
      invariant forall i :: 0 <= i < n ==> Typed(changes[i])
      invariant AllIdentifiable(changes[..n]) && identifiers == IdentitySet(table, changes[..n])
    {
      var entry := changes[n];
      if !Typed(entry) { return Err(NoType); }
      assert changes[..n + 1] == changes[..n] + [entry];
      IdentitySetGrows(table, changes, n);
      var id := ResourceIdentity(table, entry);
      if id.Some? { identifiers := identifiers + {id.value}; }
    }
    assert changes[..|changes|] == changes;
    r := Ok(identifiers);
  }

  // ---- what equal bytes mean -----------------------------------------------------------------------

  /** Equal bytes exactly when the projections are equal; then the two plans have one destructive verdict and,
      for every table, the same ids. */
  lemma CanonicalBytesInjective(a: Value, b: Value)
    requires CanonicalBytes(a).Ok? && CanonicalBytes(b).Ok?
    ensures CanonicalBytes(a) == CanonicalBytes(b) <==> Project(a) == Project(b)
    ensures CanonicalBytes(a) == CanonicalBytes(b) ==> HasDestructiveChanges(a) == HasDestructiveChanges(b)
    ensures CanonicalBytes(a) == CanonicalBytes(b) ==> forall table :: MappedIds(table, a) == MappedIds(table, b)
  {
    PrintInjective(Array(Project(a).value), Array(Project(b).value));
    if Project(a) == Project(b) {
      SameVerdict(a, b);
      forall table ensures MappedIds(table, a) == MappedIds(table, b) { SameIds(table, a, b); }
    }
  }

  lemma SameVerdict(a: Value, b: Value)
    requires Project(a) == Project(b)
    ensures HasDestructiveChanges(a) == HasDestructiveChanges(b)
  {
  }

  lemma SameIds(table: Table, a: Value, b: Value)
    requires Project(a) == Project(b)
    ensures MappedIds(table, a) == MappedIds(table, b)
  {
  }

  // ---- the recovered plan ------------------------------------------------------------------------

  datatype Summary = Summary(destructive: bool, mappedIds: seq<Str>)

  datatype SummaryError = NotProjectable | HashMismatch | Unhandled(reason: Reason)

  /** The readiness summary of a recovered change list.  An entry without a type passes the hash
      comparison and then raises the projection error itself, outside the guarded block. */
  function Summarize<Digest(==)>(table: Table, changes: seq<Value>, planHash: Digest, sha: string -> Digest)
    : Result<Summary, SummaryError>
  {
    var doc := Document(changes);
    var bytes := CanonicalBytes(doc);
    if bytes.Err? then Err(NotProjectable)
    else if sha(bytes.value) != planHash then Err(HashMismatch)
    else
      var ids := MappedIds(table, doc);
      if ids.Err? then Err(Unhandled(ids.reason))
      else Ok(Summary(HasDestructiveChanges(doc).value, ids.value))
  }

  /** The canonical document a plan run leaves behind, read back, passes the hash comparison of its
      own plan; a summary comes out exactly when every change has a type, and then it carries the
      verdicts of the original plan. */
  lemma SummaryOfRecovered<Digest>(table: Table, doc: Value, sha: string -> Digest)
    requires CanonicalBytes(doc).Ok?
    ensures var bytes := CanonicalBytes(doc).value;
            var read := ParseValue(bytes);
            && read.Some? && read.value.0.Array?
            && Summarize(table, read.value.0.items, sha(bytes), sha) ==
               if MappedIds(table, doc).Ok?
               then Ok(Summary(HasDestructiveChanges(doc).value, MappedIds(table, doc).value))
               else Err(Unhandled(NoType))
    ensures MappedIds(table, doc).Ok? <==> AllTyped(Project(doc).value)
  {
    CanonicalBytesParse(doc);
    ProjectIdempotent(doc);
  }

  ghost predicate NoCollision<Digest>(sha: string -> Digest, a: string, b: string) {
    sha(a) == sha(b) ==> a == b
  }

  /** Whatever change list a summary is accepted for, it projects to what the approved plan projects
      to, and its verdicts are the plan's, unless SHA-256 collides on the two texts. */
  lemma SummaryFaithful<Digest>(table: Table, doc: Value, changes: seq<Value>, sha: string -> Digest)
    requires CanonicalBytes(doc).Ok? && CanonicalBytes(Document(changes)).Ok?
    requires NoCollision(sha, CanonicalBytes(doc).value, CanonicalBytes(Document(changes)).value)
    ensures var r := Summarize(table, changes, sha(CanonicalBytes(doc).value), sha);
            && (r != Err(HashMismatch) <==> Project(Document(changes)) == Project(doc))
            && (r.Ok? ==>
                  && HasDestructiveChanges(doc) == Ok(r.value.destructive)
                  && MappedIds(table, doc) == Ok(r.value.mappedIds))
  {
    CanonicalBytesInjective(doc, Document(changes));
  }
}
