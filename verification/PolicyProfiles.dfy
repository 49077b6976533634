/** Policy Profiles: the rules an assessment runs, and the policy origins they are classified under. */
module PolicyProfiles {
  import opened Wrappers
  import opened Sequences
  import Strings

  datatype Kind = InternalPolicy | IsmsP

  datatype RuleRef = RuleRef(ruleId: string, version: string)

  datatype Segment = Segment(kind: Kind, source: string, sourceVersion: string, rules: seq<RuleRef>)

  datatype Profile = Profile(id: string, version: string, rules: seq<RuleRef>, segments: seq<Segment>)

  predicate Blank(s: string) { Strings.Strip(s) == "" }

  predicate ValidSegment(s: Segment) {
    !Blank(s.source) && !Blank(s.sourceVersion) && s.rules != [] && Distinct(s.rules)
  }

  function Origin(s: Segment): (string, string) { (s.source, s.sourceVersion) }

  function Origins(segments: seq<Segment>): seq<(string, string)> { Map(Origin, segments) }

  predicate Classified(segments: seq<Segment>, r: RuleRef) {
    exists i :: 0 <= i < |segments| && r in segments[i].rules
  }

  predicate Inside(p: Profile, s: Segment) { forall r :: r in s.rules ==> r in p.rules }

  predicate Named(p: Profile) { !Blank(p.id) && !Blank(p.version) && p.rules != [] }

  /** No origin twice, and the segments cover exactly the profile's rules. */
  predicate Covered(p: Profile) {
    && Distinct(Origins(p.segments))
    && (forall i :: 0 <= i < |p.segments| ==> Inside(p, p.segments[i]))
    && (forall r :: r in p.rules ==> Classified(p.segments, r))
  }

  predicate ValidProfile(p: Profile) { Named(p) && (p.segments == [] || Covered(p)) }

  method CheckSegment(s: Segment) returns (ok: bool)
    ensures ok <==> ValidSegment(s)
  {
    if Blank(s.source) || Blank(s.sourceVersion) || s.rules == [] { return false; }
    ok := IsDistinct(s.rules);
  }

  /** One segment of the check: its rules must be known; they count as classified from then on. */
  method ClassifySegment(s: Segment, known: set<RuleRef>, classified: set<RuleRef>)
    returns (ok: bool, all: set<RuleRef>)
    ensures ok <==> forall r :: r in s.rules ==> r in known
    ensures ok ==> all == classified + set r | r in s.rules
  {
    all := classified;
    for j := 0 to |s.rules|
      invariant forall r :: r in s.rules[..j] ==> r in known
      invariant all == classified + set r | r in s.rules[..j]
    {
      if s.rules[j] !in known { return false, all; }
      assert s.rules[..j + 1] == s.rules[..j] + [s.rules[j]];
      all := all + {s.rules[j]};
    }
    assert s.rules[..|s.rules|] == s.rules;
    ok := true;
  }

  ghost predicate SeenOrigins(origins: set<(string, string)>, all: seq<(string, string)>, i: nat)
    requires i <= |all|
  {
    Distinct(all[..i]) && forall o :: o in origins <==> o in all[..i]
  }

  ghost predicate SeenRules(classified: set<RuleRef>, segments: seq<Segment>) {
    forall r :: r in classified <==> Classified(segments, r)
  }

  lemma SeenNext(origins: set<(string, string)>, all: seq<(string, string)>, i: nat)
    requires i < |all| && SeenOrigins(origins, all, i)
    ensures if all[i] in origins then !Distinct(all) else SeenOrigins(origins + {all[i]}, all, i + 1)
  {
    if all[i] in origins {
      var j :| 0 <= j < i && all[..i][j] == all[i];
      assert all[j] == all[i];
    }
  }

  lemma RulesNext(classified: set<RuleRef>, segments: seq<Segment>, i: nat)
    requires i < |segments| && SeenRules(classified, segments[..i])
    ensures SeenRules(classified + (set r | r in segments[i].rules), segments[..i + 1])
  {
    ClassifiedStep(segments, i);
  }

  lemma AllSeen(p: Profile, classified: set<RuleRef>)
    requires SeenRules(classified, p.segments) && forall i :: 0 <= i < |p.segments| ==> Inside(p, p.segments[i])
    ensures classified == (set r | r in p.rules) <==> forall r :: r in p.rules ==> Classified(p.segments, r)
  {
    forall r | r in classified ensures r in p.rules {
      var i :| 0 <= i < |p.segments| && r in p.segments[i].rules;
      assert Inside(p, p.segments[i]);
    }
  }

  method CheckProfile(p: Profile) returns (ok: bool)
    ensures ok <==> ValidProfile(p)
  {
    if !Named(p) { return false; }
    if p.segments == [] { return true; }
    ok := CheckSegments(p);
  }

  method CheckSegments(p: Profile) returns (ok: bool)
    ensures ok <==> Covered(p)
  {
    var known := set r | r in p.rules;
    var classified: set<RuleRef> := {};
    var origins: set<(string, string)> := {};
    for i := 0 to |p.segments|
      invariant SeenOrigins(origins, Origins(p.segments), i)
      invariant forall j :: 0 <= j < i ==> Inside(p, p.segments[j])
      invariant SeenRules(classified, p.segments[..i])
    {
      var s := p.segments[i];
      SeenNext(origins, Origins(p.segments), i);
      if Origin(s) in origins { return false; }
      origins := origins + {Origin(s)};
      var inside, all := ClassifySegment(s, known, classified);
      if !inside {
        assert !Inside(p, p.segments[i]);
        return false;
      }
      RulesNext(classified, p.segments, i);
      classified := all;
    }
    assert p.segments[..|p.segments|] == p.segments;
    assert Origins(p.segments)[..|p.segments|] == Origins(p.segments);
    AllSeen(p, classified);
    ok := classified == known;
  }

  lemma ClassifiedStep(segments: seq<Segment>, i: nat)
    requires i < |segments|
    ensures forall r :: Classified(segments[..i + 1], r) <==> Classified(segments[..i], r) || r in segments[i].rules
  {
    forall r ensures Classified(segments[..i + 1], r) <==> Classified(segments[..i], r) || r in segments[i].rules {
      if Classified(segments[..i], r) {
        var j :| 0 <= j < i && r in segments[..i][j].rules;
        assert r in segments[..i + 1][j].rules;
      }
      if r in segments[i].rules { assert r in segments[..i + 1][i].rules; }
      if Classified(segments[..i + 1], r) {
        var j :| 0 <= j < i + 1 && r in segments[..i + 1][j].rules;
        if j < i { assert r in segments[..i][j].rules; }
      }
    }
  }

  // ---- the origins of each rule --------------------------------------------------------------------------

  predicate Lists(s: Segment, id: string) { exists j :: 0 <= j < |s.rules| && s.rules[j].ruleId == id }

  /** The kinds of the segments that list a rule, in segment order. */
  function KindsListing(segments: seq<Segment>, id: string): seq<Kind> {
    if segments == [] then []
    else
      var last := segments[|segments| - 1];
      KindsListing(segments[..|segments| - 1], id) + (if Lists(last, id) then [last.kind] else [])
  }

  function Entry(kinds: map<string, seq<Kind>>, id: string): seq<Kind> {
    if id in kinds then kinds[id] else []
  }

  ghost predicate Holds(kinds: map<string, seq<Kind>>, wanted: string -> seq<Kind>) {
    forall id :: (id in kinds <==> wanted(id) != []) && Entry(kinds, id) == wanted(id)
  }

  /** What the entries must be once the segments `before` and `j` rules of the next are done. */
  function Wanted(before: seq<Segment>, s: Segment, j: nat, id: string): seq<Kind>
    requires j <= |s.rules|
  {
    FirstSeen(KindsListing(before, id) + Listed(s, j, id))
  }

  ghost predicate Progress(kinds: map<string, seq<Kind>>, before: seq<Segment>, s: Segment, j: nat)
    requires j <= |s.rules|
  {
    Holds(kinds, id => Wanted(before, s, j, id))
  }

  function Listed(s: Segment, j: nat, id: string): seq<Kind>
    requires j <= |s.rules|
  {
    if Lists(s.(rules := s.rules[..j]), id) then [s.kind] else []
  }

  lemma ListsStep(s: Segment, j: nat, id: string)
    requires j < |s.rules|
    ensures Lists(s.(rules := s.rules[..j + 1]), id) <==>
            Lists(s.(rules := s.rules[..j]), id) || s.rules[j].ruleId == id
  {
    if Lists(s.(rules := s.rules[..j]), id) {
      var k :| 0 <= k < j && s.rules[..j][k].ruleId == id;
      assert s.rules[..j + 1][k].ruleId == id;
    }
    assert s.rules[..j + 1][j] == s.rules[j];
    if Lists(s.(rules := s.rules[..j + 1]), id) && s.rules[j].ruleId != id {
      var k :| 0 <= k < j + 1 && s.rules[..j + 1][k].ruleId == id;
      assert s.rules[..j][k].ruleId == id;
    }
  }

  lemma EntryStep(listing: seq<Kind>, listed: bool, kind: Kind, entry: seq<Kind>)
    requires entry == FirstSeen(listing + (if listed then [kind] else []))
    ensures FirstSeen(listing + [kind]) == if kind in entry then entry else entry + [kind]
  {
    FirstSeenStep(listing, kind);
    assert listing + [] == listing;
  }

  function Added(kinds: map<string, seq<Kind>>, id: string, kind: Kind): map<string, seq<Kind>> {
    kinds[id := if kind in Entry(kinds, id) then Entry(kinds, id) else Entry(kinds, id) + [kind]]
  }

  lemma AddedHolds(kinds: map<string, seq<Kind>>, x: string, k: Kind, was: string -> seq<Kind>,
                   now: string -> seq<Kind>)
    requires Holds(kinds, was)
    requires forall id :: now(id) == if id != x || k in was(id) then was(id) else was(id) + [k]
    ensures Holds(Added(kinds, x, k), now)
  {
    forall id ensures (id in Added(kinds, x, k) <==> now(id) != []) && Entry(Added(kinds, x, k), id) == now(id) {
      assert Entry(kinds, id) == was(id);
    }
  }

  lemma WantedStep(before: seq<Segment>, s: Segment, j: nat, id: string)
    requires j < |s.rules|
    ensures var was := Wanted(before, s, j, id);
            Wanted(before, s, j + 1, id) == if id != s.rules[j].ruleId || s.kind in was then was else was + [s.kind]
  {
    ListsStep(s, j, id);
    EntryStep(KindsListing(before, id), Lists(s.(rules := s.rules[..j]), id), s.kind, Wanted(before, s, j, id));
  }

  lemma ProgressStep(kinds: map<string, seq<Kind>>, before: seq<Segment>, s: Segment, j: nat)
    requires j < |s.rules| && Progress(kinds, before, s, j)
    ensures Progress(Added(kinds, s.rules[j].ruleId, s.kind), before, s, j + 1)
  {
    forall id ensures var was := Wanted(before, s, j, id);
      Wanted(before, s, j + 1, id) == if id != s.rules[j].ruleId || s.kind in was then was else was + [s.kind]
    {
      WantedStep(before, s, j, id);
    }
    AddedHolds(kinds, s.rules[j].ruleId, s.kind, id => Wanted(before, s, j, id), id => Wanted(before, s, j + 1, id));
  }

  lemma WantedNext(segments: seq<Segment>, i: nat, t: Segment, id: string)
    requires i < |segments|
    ensures Wanted(segments[..i + 1], t, 0, id) == Wanted(segments[..i], segments[i], |segments[i].rules|, id)
  {
    var s := segments[i];
    assert segments[..i + 1][..i] == segments[..i];
    assert s.rules[..|s.rules|] == s.rules;
    assert KindsListing(segments[..i], id) + Listed(s, |s.rules|, id) ==
           KindsListing(segments[..i + 1], id) + Listed(t, 0, id);
  }

  lemma ProgressNext(kinds: map<string, seq<Kind>>, segments: seq<Segment>, i: nat, t: Segment)
    requires i < |segments| && Progress(kinds, segments[..i], segments[i], |segments[i].rules|)
    ensures Progress(kinds, segments[..i + 1], t, 0)
  {
    forall id
      ensures Wanted(segments[..i + 1], t, 0, id) == Wanted(segments[..i], segments[i], |segments[i].rules|, id)
    {
      WantedNext(segments, i, t, id);
    }
  }

  /** Between two segments the entries are those of the segments done. */
  ghost predicate Done(kinds: map<string, seq<Kind>>, segments: seq<Segment>) {
    forall id :: (id in kinds <==> KindsListing(segments, id) != []) &&
                 Entry(kinds, id) == FirstSeen(KindsListing(segments, id))
  }

  lemma DoneIsProgress(kinds: map<string, seq<Kind>>, segments: seq<Segment>, s: Segment)
    ensures Done(kinds, segments) <==> Progress(kinds, segments, s, 0)
  {
    forall id ensures Wanted(segments, s, 0, id) == FirstSeen(KindsListing(segments, id)) {
      assert KindsListing(segments, id) + Listed(s, 0, id) == KindsListing(segments, id);
    }
  }

  lemma DoneAtFirst()
    ensures Done(map[], [])
  {
  }

  /** Every rule that some segment lists, with the kinds of those segments, each once. */
  method RuleKinds(p: Profile) returns (kinds: map<string, seq<Kind>>)
    ensures forall id :: id in kinds <==> KindsListing(p.segments, id) != []
    ensures forall id :: id in kinds ==> kinds[id] == FirstSeen(KindsListing(p.segments, id))
  {
    kinds := map[];
    DoneAtFirst();
    for i := 0 to |p.segments|
      invariant Done(kinds, p.segments[..i])
    {
      var s := p.segments[i];
      DoneIsProgress(kinds, p.segments[..i], s);
      for j := 0 to |s.rules|
        invariant Progress(kinds, p.segments[..i], s, j)
      {
        ProgressStep(kinds, p.segments[..i], s, j);
        kinds := Added(kinds, s.rules[j].ruleId, s.kind);
      }
      ProgressNext(kinds, p.segments, i, s);
      DoneIsProgress(kinds, p.segments[..i + 1], s);
    }
    assert p.segments[..|p.segments|] == p.segments;
    assert forall id :: id in kinds ==> Entry(kinds, id) == kinds[id];
  }

  method SourceKinds(p: Profile) returns (kinds: seq<Kind>)
    ensures kinds == FirstSeen(Map((s: Segment) => s.kind, p.segments))
  {
    kinds := [];
    for i := 0 to |p.segments|
      invariant kinds == FirstSeen(Map((s: Segment) => s.kind, p.segments[..i]))
    {
      MapStep((s: Segment) => s.kind, p.segments, i);
      FirstSeenStep(Map((s: Segment) => s.kind, p.segments[..i]), p.segments[i].kind);
      if p.segments[i].kind !in kinds { kinds := kinds + [p.segments[i].kind]; }
    }
    assert p.segments[..|p.segments|] == p.segments;
  }

  lemma {:induction false} KindsListingExactly(segments: seq<Segment>, id: string, k: Kind)
    ensures k in KindsListing(segments, id) <==>
            exists i :: 0 <= i < |segments| && Lists(segments[i], id) && segments[i].kind == k
  {
    if segments != [] { KindsListingExactly(segments[..|segments| - 1], id, k); }
  }

  lemma ListedIsInside(p: Profile, id: string)
    requires ValidProfile(p) && p.segments != [] && KindsListing(p.segments, id) != []
    ensures exists r :: r in p.rules && r.ruleId == id
  {
    KindsListingExactly(p.segments, id, KindsListing(p.segments, id)[0]);
    var i :| 0 <= i < |p.segments| && Lists(p.segments[i], id);
    var j :| 0 <= j < |p.segments[i].rules| && p.segments[i].rules[j].ruleId == id;
    assert Inside(p, p.segments[i]);
    assert p.segments[i].rules[j] in p.rules;
  }

  lemma InsideIsListed(segments: seq<Segment>, r: RuleRef)
    requires Classified(segments, r)
    ensures KindsListing(segments, r.ruleId) != []
  {
    var i :| 0 <= i < |segments| && r in segments[i].rules;
    var j :| 0 <= j < |segments[i].rules| && segments[i].rules[j] == r;
    assert Lists(segments[i], r.ruleId);
    KindsListingExactly(segments, r.ruleId, segments[i].kind);
  }

  /** In a valid profile with segments exactly the profile's rules have origins. */
  lemma RuleKindsCover(p: Profile, id: string)
    requires ValidProfile(p) && p.segments != []
    ensures KindsListing(p.segments, id) != [] <==> exists r :: r in p.rules && r.ruleId == id
  {
    if KindsListing(p.segments, id) != [] { ListedIsInside(p, id); }
    if r :| r in p.rules && r.ruleId == id { InsideIsListed(p.segments, r); }
  }

  /** A profile with one segment that lists its rules as they are. */
  lemma OneSegment(p: Profile, s: Segment)
    requires p.segments == [s] && s.rules == p.rules
    ensures Covered(p)
  {
    assert Distinct(Origins(p.segments));
    forall r | r in p.rules ensures Classified(p.segments, r) { assert r in p.segments[0].rules; }
  }

  // ---- names -----------------------------------------------------------------------------------------------

  /** A name is blank when it holds white space only. */
  lemma BlankExactly(s: string)
    ensures Blank(s) <==> forall i :: 0 <= i < |s| ==> Strings.IsSpace(s[i])
  {
    Strings.StripIsMiddle(s);
    if Blank(s) {
      SpaceInParts(s, |s| - |Strings.StripLeft(s)|);
    } else {
      assert Strings.Strip(s)[0] in s;
    }
  }

  lemma SpaceInParts(s: string, k: nat)
    requires k <= |s| && Strings.AllSpace(s[..k]) && Strings.AllSpace(s[k..])
    ensures Strings.AllSpace(s)
  {
    assert s == s[..k] + s[k..];
  }

  /** Every accepted profile and segment is named. */
  lemma AcceptedAreNamed(p: Profile, s: Segment)
    ensures ValidProfile(p) ==> !Blank(p.id) && !Blank(p.version) && |p.rules| > 0
    ensures ValidProfile(p) && p.segments == [s] ==>
              && (forall r :: r in s.rules <==> r in p.rules)
    ensures ValidSegment(s) ==> !Blank(s.source) && !Blank(s.sourceVersion) && |s.rules| > 0
  {
    if ValidProfile(p) && p.segments == [s] {
      assert p.segments[0] == s && Inside(p, p.segments[0]);
    }
  }
}
