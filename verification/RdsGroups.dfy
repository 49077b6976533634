/** Listing database instances with every attached security group, or failing. */
module RdsGroups {
  import opened Wrappers
  import opened Sequences
  import Pagination

  const BATCH_SIZE: nat := 100

  const DB_INSTANCE_FIELDS: seq<string> := [
    "DBInstanceIdentifier", "DBInstanceStatus", "Engine", "PubliclyAccessible", "StorageEncrypted", "KmsKeyId",
    "IAMDatabaseAuthenticationEnabled", "EnabledCloudwatchLogsExports"]
  const SUBNET_GROUP_FIELDS: seq<string> := ["DBSubnetGroupName", "VpcId", "SubnetGroupStatus"]
  const VPC_SECURITY_GROUP_FIELDS: seq<string> := ["VpcSecurityGroupId", "Status"]
  const SECURITY_GROUP_FIELDS: seq<string> := ["GroupId", "GroupName", "VpcId", "IpPermissions"]

  /** A value of a response: text, or anything else by its spelling. */
  datatype Field = Text(text: string) | Other(spelling: string)

  type Record = map<string, Field>

  /** A response field that should hold a list of mappings: the list if it is one, each item a mapping or not. */
  type Listing = Option<seq<Option<Record>>>

  datatype Instance = Instance(fields: Record, subnetGroup: Option<Record>, memberships: Listing)

  datatype Answer = Failed | Groups(groups: Listing)

  /** What the `k`-th request, which asks for some group ids, is answered. */
  type Remote = (nat, seq<string>) -> Answer

  datatype Error = Unlisted(reason: Pagination.Error) | ReadFailed | FewerGroups | InvalidInstance

  datatype View = View(id: string, instance: Record, subnetGroup: Record, securityGroups: seq<Record>)

  function Items(listing: Listing): seq<Record> {
    match listing case Some(page) => Pagination.Kept(page) case None => []
  }

  /** The field's text; empty when it is missing or not text. */
  function TextOf(record: Record, field: string): string {
    if field in record && record[field].Text? then record[field].text else ""
  }

  function Projected(source: Record, fields: seq<string>): Record {
    map f | f in fields && f in source :: source[f]
  }

  // ---- the ids in use ----------------------------------------------------------------------------------

  function Named(memberships: seq<Record>): seq<Record> {
    if memberships == [] then []
    else
      var last := memberships[|memberships| - 1];
      Named(memberships[..|memberships| - 1]) + (if TextOf(last, "VpcSecurityGroupId") != "" then [last] else [])
  }

  function Ids(memberships: seq<Record>): seq<string> {
    Map((m: Record) => TextOf(m, "VpcSecurityGroupId"), Named(memberships))
  }

  function IdsOfAll(instances: seq<Instance>): seq<string> {
    if instances == [] then []
    else IdsOfAll(instances[..|instances| - 1]) + Ids(Items(instances[|instances| - 1].memberships))
  }

  lemma IdsStep(memberships: seq<Record>, j: nat)
    requires j < |memberships|
    ensures var id := TextOf(memberships[j], "VpcSecurityGroupId");
            Ids(memberships[..j + 1]) == Ids(memberships[..j]) + (if id != "" then [id] else [])
  {
    assert memberships[..j + 1][..j] == memberships[..j];
  }

  lemma NextId(before: seq<string>, ids: seq<string>, id: string)
    ensures FirstSeen(before + (ids + [id])) ==
            var seen := FirstSeen(before + ids); if id in seen then seen else seen + [id]
  {
    FirstSeenStep(before + ids, id);
    assert before + (ids + [id]) == before + ids + [id];
  }

  lemma CollectStep(before: seq<string>, memberships: seq<Record>, j: nat, ids: seq<string>)
    requires j < |memberships| && ids == FirstSeen(before + Ids(memberships[..j]))
    ensures var id := TextOf(memberships[j], "VpcSecurityGroupId");
            FirstSeen(before + Ids(memberships[..j + 1])) == if id == "" || id in ids then ids else ids + [id]
  {
    var id := TextOf(memberships[j], "VpcSecurityGroupId");
    var listed := Ids(memberships[..j]);
    IdsStep(memberships, j);
    if id == "" {
      assert listed + [] == listed;
    } else {
      NextId(before, listed, id);
    }
  }

  lemma CollectEnds(instances: seq<Instance>, i: nat)
    requires i < |instances|
    ensures var memberships := Items(instances[i].memberships);
            IdsOfAll(instances[..i + 1]) == IdsOfAll(instances[..i]) + Ids(memberships[..|memberships|])
    ensures IdsOfAll(instances[..i]) == IdsOfAll(instances[..i]) + Ids([])
  {
    var memberships := Items(instances[i].memberships);
    assert memberships[..|memberships|] == memberships;
    assert instances[..i + 1][..i] == instances[..i];
  }

  method CollectIds(instances: seq<Instance>) returns (ids: seq<string>)
    ensures ids == FirstSeen(IdsOfAll(instances))
  {
    ids := [];
    for i := 0 to |instances|
      invariant ids == FirstSeen(IdsOfAll(instances[..i]))
    {
      var memberships := Items(instances[i].memberships);
      ghost var before := IdsOfAll(instances[..i]);
      CollectEnds(instances, i);
      assert memberships[..0] == [];
      for j := 0 to |memberships|
        invariant ids == FirstSeen(before + Ids(memberships[..j]))
      {
        var id := TextOf(memberships[j], "VpcSecurityGroupId");
        CollectStep(before, memberships, j, ids);
        if id != "" && id !in ids { ids := ids + [id]; }
      }
    }
    assert instances[..|instances|] == instances;
  }

  // ---- reading in batches --------------------------------------------------------------------------------

  /** How many requests `n` ids take. */
  function Requests(n: nat): nat { (n + BATCH_SIZE - 1) / BATCH_SIZE }

  function Batch(ids: seq<string>, k: nat): seq<string>
    requires k < Requests(|ids|)
  {
    ids[k * BATCH_SIZE..Min((k + 1) * BATCH_SIZE, |ids|)]
  }

  predicate Answered(call: Remote, ids: seq<string>, k: nat)
    requires k < Requests(|ids|)
  {
    call(k, Batch(ids, k)).Groups?
  }

  /** The groups of the answers to requests 0 to k - 1. */
  function Answers(call: Remote, ids: seq<string>, k: nat): seq<Record>
    requires k <= Requests(|ids|)
  {
    if k == 0 then []
    else
      var answer := call(k - 1, Batch(ids, k - 1));
      Answers(call, ids, k - 1) + (if answer.Groups? then Items(answer.groups) else [])
  }

  /** Groups by id; a later description replaces an earlier one. */
  function ById(groups: seq<Record>): map<string, Record> {
    if groups == [] then map[]
    else
      var last := groups[|groups| - 1];
      var before := ById(groups[..|groups| - 1]);
      if TextOf(last, "GroupId") != "" then before[TextOf(last, "GroupId") := last] else before
  }

  lemma {:induction false} ByIdExactly(groups: seq<Record>, id: string)
    ensures id in ById(groups) <==> id != "" && exists g :: g in groups && TextOf(g, "GroupId") == id
    ensures id in ById(groups) ==> ById(groups)[id] in groups && TextOf(ById(groups)[id], "GroupId") == id
  {
    if groups != [] { ByIdExactly(groups[..|groups| - 1], id); }
  }

  /** The requests ask for every id once, in order, and none for more than a batch. */
  lemma {:induction false} BatchesCover(ids: seq<string>, k: nat)
    requires k <= Requests(|ids|)
    ensures Flat(seq(k, i requires 0 <= i < k => Batch(ids, i))) == ids[..Min(k * BATCH_SIZE, |ids|)]
    ensures k < Requests(|ids|) ==> 0 < |Batch(ids, k)| <= BATCH_SIZE
  {
    if k > 0 {
      BatchesCover(ids, k - 1);
      var all := seq(k, i requires 0 <= i < k => Batch(ids, i));
      assert all[..k - 1] == seq(k - 1, i requires 0 <= i < k - 1 => Batch(ids, i));
    }
  }

  function Flat(batches: seq<seq<string>>): seq<string> {
    if batches == [] then [] else Flat(batches[..|batches| - 1]) + batches[|batches| - 1]
  }

  /** What reading the groups of some ids comes to. */
  function Described(call: Remote, ids: seq<string>): Result<map<string, Record>, Error> {
    if ids == [] then Ok(map[])
    else if exists k: nat :: k < Requests(|ids|) && !Answered(call, ids, k) then Err(ReadFailed)
    else
      var described := ById(Answers(call, ids, Requests(|ids|)));
      if forall id :: id in ids ==> id in described then Ok(described) else Err(FewerGroups)
  }

  lemma ByIdStep(before: seq<Record>, groups: seq<Record>, j: nat)
    requires j < |groups|
    ensures var d, id := ById(before + groups[..j]), TextOf(groups[j], "GroupId");
            ById(before + groups[..j + 1]) == if id != "" then d[id := groups[j]] else d
  {
    assert (before + groups[..j + 1])[..|before| + j] == before + groups[..j];
  }

  method AddGroups(described: map<string, Record>, groups: seq<Record>, ghost before: seq<Record>)
    returns (r: map<string, Record>)
    requires described == ById(before)
    ensures r == ById(before + groups)
  {
    r := described;
    assert before + groups[..0] == before;
    for j := 0 to |groups|
      invariant r == ById(before + groups[..j])
    {
      ByIdStep(before, groups, j);
      var id := TextOf(groups[j], "GroupId");
      if id != "" { r := r[id := groups[j]]; }
    }
    assert groups[..|groups|] == groups;
  }

  lemma BatchFails(call: Remote, ids: seq<string>, k: nat)
    requires k < Requests(|ids|) && !Answered(call, ids, k)
    ensures Described(call, ids) == Err(ReadFailed)
  {
  }

  lemma AllAnswered(call: Remote, ids: seq<string>, k: nat, described: map<string, Record>)
    requires ids != [] && k == Requests(|ids|) && forall i: nat :: i < k ==> Answered(call, ids, i)
    requires described == ById(Answers(call, ids, k))
    ensures Described(call, ids) ==
            if forall id :: id in ids ==> id in described then Ok(described) else Err(FewerGroups)
  {
  }

  /** The batched read of the groups with some ids. */
  method Describe(call: Remote, ids: seq<string>) returns (r: Result<map<string, Record>, Error>)
    ensures r == Described(call, ids)
  {
    if ids == [] { return Ok(map[]); }
    var described: map<string, Record> := map[];
    var k := 0;
    while k * BATCH_SIZE < |ids|
      invariant 0 <= k <= Requests(|ids|)
      invariant forall i: nat :: i < k ==> Answered(call, ids, i)
      invariant described == ById(Answers(call, ids, k))
    {
      var answer := call(k, Batch(ids, k));
      if answer.Failed? {
        BatchFails(call, ids, k);
        return Err(ReadFailed);
      }
      described := AddGroups(described, Items(answer.groups), Answers(call, ids, k));
      k := k + 1;
    }
    AllAnswered(call, ids, k, described);
    r := if forall id :: id in ids ==> id in described then Ok(described) else Err(FewerGroups);
  }

  method SecurityGroupsFor(call: Remote, instances: seq<Instance>) returns (r: Result<map<string, Record>, Error>)
    ensures r == Described(call, FirstSeen(IdsOfAll(instances)))
  {
    var ids := CollectIds(instances);
    r := Describe(call, ids);
  }

  // ---- the attached groups of one instance ---------------------------------------------------------------

  function Entry(groups: map<string, Record>, membership: Record): Record
    requires TextOf(membership, "VpcSecurityGroupId") in groups
  {
    Projected(membership, VPC_SECURITY_GROUP_FIELDS)
    + Projected(groups[TextOf(membership, "VpcSecurityGroupId")], SECURITY_GROUP_FIELDS)
  }

  function Attached(memberships: seq<Record>, groups: map<string, Record>): seq<Record> {
    if memberships == [] then []
    else
      var last := memberships[|memberships| - 1];
      Attached(memberships[..|memberships| - 1], groups)
      + (if TextOf(last, "VpcSecurityGroupId") in groups then [Entry(groups, last)] else [])
  }

  method AttachedSecurityGroups(instance: Instance, groups: map<string, Record>) returns (attached: seq<Record>)
    requires "" !in groups
    ensures attached == Attached(Items(instance.memberships), groups)
  {
    attached := [];
    var memberships := Items(instance.memberships);
    for j := 0 to |memberships|
      invariant attached == Attached(memberships[..j], groups)
    {
      var m := memberships[j];
      assert memberships[..j + 1][..j] == memberships[..j];
      if "VpcSecurityGroupId" in m && m["VpcSecurityGroupId"].Text? && m["VpcSecurityGroupId"].text in groups {
        attached := attached + [Entry(groups, m)];
      }
    }
    assert memberships[..|memberships|] == memberships;
  }

  /** An entry describes the group of its membership. */
  predicate Describes(entry: Record, membership: Record) {
    TextOf(entry, "VpcSecurityGroupId") == TextOf(entry, "GroupId") == TextOf(membership, "VpcSecurityGroupId")
  }

  /** One entry for each membership that names a group, in order, and nothing else. */
  predicate OneEach(attached: seq<Record>, memberships: seq<Record>) {
    && |attached| == |Named(memberships)|
    && forall j :: 0 <= j < |attached| ==> Describes(attached[j], Named(memberships)[j])
  }

  lemma EntryDescribes(groups: map<string, Record>, m: Record)
    requires TextOf(m, "VpcSecurityGroupId") in groups && TextOf(m, "VpcSecurityGroupId") != ""
    requires TextOf(groups[TextOf(m, "VpcSecurityGroupId")], "GroupId") == TextOf(m, "VpcSecurityGroupId")
    ensures Describes(Entry(groups, m), m)
  {
    assert SECURITY_GROUP_FIELDS[0] == "GroupId";
    assert VPC_SECURITY_GROUP_FIELDS[0] == "VpcSecurityGroupId";
    forall i | 0 <= i < |SECURITY_GROUP_FIELDS| ensures SECURITY_GROUP_FIELDS[i] != "VpcSecurityGroupId" {
      assert SECURITY_GROUP_FIELDS[i][0] != 'V' || |SECURITY_GROUP_FIELDS[i]| == 5;
    }
  }

  lemma AttachedStep(memberships: seq<Record>, n: nat, groups: map<string, Record>)
    requires n < |memberships| && Keyed(groups)
    requires var id := TextOf(memberships[n], "VpcSecurityGroupId"); id != "" ==> id in groups
    requires OneEach(Attached(memberships[..n], groups), memberships[..n])
    ensures OneEach(Attached(memberships[..n + 1], groups), memberships[..n + 1])
  {
    assert memberships[..n + 1][..n] == memberships[..n];
    if TextOf(memberships[n], "VpcSecurityGroupId") != "" { EntryDescribes(groups, memberships[n]); }
  }

  /** Usable group descriptions: under each id a description of that group. */
  predicate Keyed(groups: map<string, Record>) {
    "" !in groups && forall id :: id in groups ==> TextOf(groups[id], "GroupId") == id
  }

  lemma {:induction false} AttachedComplete(memberships: seq<Record>, groups: map<string, Record>, n: nat)
    requires Keyed(groups) && n <= |memberships|
    requires forall j :: 0 <= j < n && TextOf(memberships[j], "VpcSecurityGroupId") != "" ==>
               TextOf(memberships[j], "VpcSecurityGroupId") in groups
    ensures OneEach(Attached(memberships[..n], groups), memberships[..n])
  {
    if n > 0 {
      AttachedComplete(memberships, groups, n - 1);
      AttachedStep(memberships, n - 1, groups);
    }
  }

  lemma IdsGrow(memberships: seq<Record>, n: nat)
    requires n < |memberships|
    ensures forall id :: id in Ids(memberships[..n]) ==> id in Ids(memberships[..n + 1])
    ensures var id := TextOf(memberships[n], "VpcSecurityGroupId"); id != "" ==> id in Ids(memberships[..n + 1])
  {
    IdsStep(memberships, n);
  }

  lemma {:induction false} NamedIds(memberships: seq<Record>, n: nat, j: nat, id: string)
    requires j < n <= |memberships| && id == TextOf(memberships[j], "VpcSecurityGroupId") != ""
    ensures id in Ids(memberships[..n])
  {
    IdsGrow(memberships, n - 1);
    if j < n - 1 { NamedIds(memberships, n - 1, j, id); }
  }

  // ---- the whole list ------------------------------------------------------------------------------------

  function Identifier(instance: Instance): string { TextOf(instance.fields, "DBInstanceIdentifier") }

  function ViewOf(instance: Instance, groups: map<string, Record>): Result<View, Error> {
    if Identifier(instance) == "" then Err(InvalidInstance)
    else Ok(View(Identifier(instance), Projected(instance.fields, DB_INSTANCE_FIELDS), Subnet(instance),
                 Attached(Items(instance.memberships), groups)))
  }

  function Subnet(instance: Instance): Record {
    match instance.subnetGroup case Some(s) => Projected(s, SUBNET_GROUP_FIELDS) case None => map[]
  }

  /** Every instance has its view, with an entry for each group attached to it. */
  predicate Complete(instances: seq<Instance>, views: seq<View>) {
    |views| == |instances| &&
    forall i :: 0 <= i < |views| ==> CompleteView(instances[i], views[i])
  }

  predicate CompleteView(instance: Instance, view: View) {
    && view.id == Identifier(instance) != ""
    && view.instance == Projected(instance.fields, DB_INSTANCE_FIELDS) && view.subnetGroup == Subnet(instance)
    && OneEach(view.securityGroups, Items(instance.memberships))
  }

  lemma DescribedMeans(call: Remote, ids: seq<string>)
    requires Described(call, ids).Ok?
    ensures Keyed(Described(call, ids).value) && forall id :: id in ids ==> id in Described(call, ids).value
  {
    if ids != [] {
      var groups := Answers(call, ids, Requests(|ids|));
      forall id ensures id in ById(groups) ==> id != "" && TextOf(ById(groups)[id], "GroupId") == id {
        ByIdExactly(groups, id);
      }
    }
  }

  lemma {:induction false} IdsOfOne(instances: seq<Instance>, i: nat, id: string)
    requires i < |instances| && id in Ids(Items(instances[i].memberships))
    ensures id in IdsOfAll(instances)
  {
    if i < |instances| - 1 { IdsOfOne(instances[..|instances| - 1], i, id); }
  }

  /** All groups of one instance are described. */
  predicate Covers(groups: map<string, Record>, instance: Instance) {
    forall id :: id in Ids(Items(instance.memberships)) ==> id in groups
  }

  lemma CoversOne(groups: map<string, Record>, instances: seq<Instance>, i: nat)
    requires i < |instances| && forall id :: id in IdsOfAll(instances) ==> id in groups
    ensures Covers(groups, instances[i])
  {
    forall id | id in Ids(Items(instances[i].memberships)) ensures id in groups { IdsOfOne(instances, i, id); }
  }

  lemma CoversAll(groups: map<string, Record>, instances: seq<Instance>)
    requires forall id :: id in IdsOfAll(instances) ==> id in groups
    ensures forall i :: 0 <= i < |instances| ==> Covers(groups, instances[i])
  {
    forall i | 0 <= i < |instances| ensures Covers(groups, instances[i]) { CoversOne(groups, instances, i); }
  }

  lemma DescribedCovers(call: Remote, instances: seq<Instance>, ids: seq<string>, groups: map<string, Record>)
    requires Described(call, ids) == Ok(groups) && forall id :: id in IdsOfAll(instances) ==> id in ids
    ensures Keyed(groups) && forall i :: 0 <= i < |instances| ==> Covers(groups, instances[i])
  {
    DescribedMeans(call, ids);
    CoversAll(groups, instances);
  }

  lemma ViewComplete(instance: Instance, groups: map<string, Record>)
    requires Keyed(groups) && Covers(groups, instance)
    ensures ViewOf(instance, groups).Ok? <==> Identifier(instance) != ""
    ensures ViewOf(instance, groups).Ok? ==> CompleteView(instance, ViewOf(instance, groups).value)
  {
    var memberships := Items(instance.memberships);
    forall j | 0 <= j < |memberships| && TextOf(memberships[j], "VpcSecurityGroupId") != ""
      ensures TextOf(memberships[j], "VpcSecurityGroupId") in groups
    {
      NamedIds(memberships, |memberships|, j, TextOf(memberships[j], "VpcSecurityGroupId"));
      assert memberships[..|memberships|] == memberships;
    }
    AttachedComplete(memberships, groups, |memberships|);
    assert memberships[..|memberships|] == memberships;
  }

  /** The listed instances can be shown: all have identifiers and all their groups can be read. */
  ghost predicate Showable(call: Remote, instances: seq<Instance>) {
    Described(call, FirstSeen(IdsOfAll(instances))).Ok? &&
    forall i :: 0 <= i < |instances| ==> Identifier(instances[i]) != ""
  }

  /** The groups could not be read, or they could and an instance has no identifier. */
  ghost predicate WhyNotShown(call: Remote, instances: seq<Instance>, reason: Error) {
    var described := Described(call, FirstSeen(IdsOfAll(instances)));
    if described.Err? then reason == described.reason else reason == InvalidInstance
  }

  method Show(instance: Instance, groups: map<string, Record>) returns (r: Result<View, Error>)
    requires Keyed(groups) && Covers(groups, instance)
    ensures r.Ok? <==> Identifier(instance) != ""
    ensures r.Ok? ==> CompleteView(instance, r.value)
    ensures r.Err? ==> r.reason == InvalidInstance
  {
    ViewComplete(instance, groups);
    if Identifier(instance) == "" { return Err(InvalidInstance); }
    var attached := AttachedSecurityGroups(instance, groups);
    r := Ok(View(Identifier(instance), Projected(instance.fields, DB_INSTANCE_FIELDS), Subnet(instance), attached));
  }

  method ViewsOf(instances: seq<Instance>, groups: map<string, Record>) returns (r: Result<seq<View>, Error>)
    requires Keyed(groups) && forall i :: 0 <= i < |instances| ==> Covers(groups, instances[i])
    ensures r.Ok? ==> Complete(instances, r.value)
    ensures r.Ok? <==> forall i :: 0 <= i < |instances| ==> Identifier(instances[i]) != ""
    ensures r.Err? ==> r.reason == InvalidInstance
  {
    var views: seq<View> := [];
    for i := 0 to |instances|
      invariant |views| == i && forall j :: 0 <= j < i ==> CompleteView(instances[j], views[j])
    {
      var view := Show(instances[i], groups);
      if view.Err? { return Err(view.reason); }
      views := views + [view.value];
    }
    r := Ok(views);
  }

  /** The second half of the read: the groups of the listed instances, then the views. */
  method ViewsFor(call: Remote, instances: seq<Instance>) returns (r: Result<seq<View>, Error>)
    ensures r.Ok? ==> Complete(instances, r.value)
    ensures r.Ok? <==> Showable(call, instances)
    ensures r.Err? ==> !r.reason.Unlisted? && WhyNotShown(call, instances, r.reason)
  {
    var groups := SecurityGroupsFor(call, instances);
    if groups.Err? { return Err(groups.reason); }
    DescribedCovers(call, instances, FirstSeen(IdsOfAll(instances)), groups.value);
    r := ViewsOf(instances, groups.value);
  }

  method ListResources(list: Pagination.Remote<Instance>, call: Remote) returns (r: Result<seq<View>, Error>)
    ensures r.Ok? ==> exists instances :: Pagination.Lists(list, instances) && Complete(instances, r.value)
    ensures r.Ok? <==> exists instances :: Pagination.Lists(list, instances) && Showable(call, instances)
    ensures r.Err? ==>
              if r.reason.Unlisted? then forall instances :: !Pagination.Lists(list, instances)
              else exists instances :: Pagination.Lists(list, instances) && WhyNotShown(call, instances, r.reason)
  {
    var listed := Pagination.Paginate(list);
    if listed.Err? { return Err(Unlisted(listed.reason)); }
    assert Pagination.Lists(list, listed.value);
    r := ViewsFor(call, listed.value);
  }

  // ---- what is kept, and how much is asked at once ---------------------------------------------------------

  /** The fields of an instance, its subnet group, a membership and a group that are kept as evidence. */
  lemma KeptFields(f: string)
    ensures f in DB_INSTANCE_FIELDS <==>
            || f == "DBInstanceIdentifier" || f == "DBInstanceStatus" || f == "Engine" || f == "PubliclyAccessible"
            || f == "StorageEncrypted" || f == "KmsKeyId" || f == "IAMDatabaseAuthenticationEnabled"
            || f == "EnabledCloudwatchLogsExports"
    ensures f in SUBNET_GROUP_FIELDS <==> f == "DBSubnetGroupName" || f == "VpcId" || f == "SubnetGroupStatus"
    ensures f in VPC_SECURITY_GROUP_FIELDS <==> f == "VpcSecurityGroupId" || f == "Status"
    ensures f in SECURITY_GROUP_FIELDS <==> f == "GroupId" || f == "GroupName" || f == "VpcId" || f == "IpPermissions"
  {
  }

  /** A projection keeps what the source holds of the listed fields, and nothing else. */
  lemma ProjectedExactly(source: Record, fields: seq<string>, f: string)
    ensures f in Projected(source, fields) <==> f in fields && f in source
    ensures f in Projected(source, fields) ==> Projected(source, fields)[f] == source[f]
  {
  }

  /** A hundred ids to a request: the number of requests, and how many ids each asks for. */
  lemma RequestsExactly(ids: seq<string>, k: nat)
    requires k < Requests(|ids|)
    ensures 100 * (Requests(|ids|) - 1) < |ids| <= 100 * Requests(|ids|)
    ensures |Batch(ids, k)| == if k < Requests(|ids|) - 1 then 100 else |ids| - 100 * k
  {
  }

  /** An instance without an identifier has no view; any other carries it. */
  lemma ViewOfExactly(instance: Instance, groups: map<string, Record>)
    requires Covers(groups, instance)
    ensures var id := TextOf(instance.fields, "DBInstanceIdentifier");
            && (ViewOf(instance, groups) == Err(InvalidInstance) <==> id == "")
            && (ViewOf(instance, groups).Ok? ==> ViewOf(instance, groups).value.id == id)
  {
  }
}
