/** The list of Policy Profiles kept in one comma-separated user attribute. */
module ProfileLists {
  import opened Wrappers
  import opened Sequences
  import opened Strings

  datatype Action = Add | Remove | Replace

  /** The profiles an attribute value stands for. */
  function Profiles(value: Option<string>): seq<string> {
    match value case None => [] case Some(text) => FirstSeen(NonEmpty(Map(Strip, Split(text, ','))))
  }

  predicate CleanItem(x: string) { x != "" && Trimmed(x) && ',' !in x }

  /** What can be stored and read back: trimmed, non-empty, without commas, and no repeats. */
  predicate Clean(items: seq<string>) {
    Distinct(items) && forall i :: 0 <= i < |items| ==> CleanItem(items[i])
  }

  lemma ProfilesStep(parts: seq<string>, i: nat)
    requires i < |parts|
    ensures var x, seen := Strip(parts[i]), FirstSeen(NonEmpty(Map(Strip, parts[..i])));
            FirstSeen(NonEmpty(Map(Strip, parts[..i + 1]))) == if x != "" && x !in seen then seen + [x] else seen
  {
    MapStep(Strip, parts, i);
    NonEmptyStep(Map(Strip, parts[..i]), Strip(parts[i]));
    FirstSeenStep(NonEmpty(Map(Strip, parts[..i])), Strip(parts[i]));
  }

  method SplitProfiles(value: Option<string>) returns (seen: seq<string>)
    ensures seen == Profiles(value)
  {
    if value.None? { return []; }
    seen := [];
    var parts := Split(value.value, ',');
    for i := 0 to |parts|
      invariant seen == FirstSeen(NonEmpty(Map(Strip, parts[..i])))
    {
      ProfilesStep(parts, i);
      var item := Strip(parts[i]);
      if item != "" && item !in seen { seen := seen + [item]; }
    }
    assert parts[..|parts|] == parts;
  }

  lemma StrippedItem(parts: seq<string>, x: string)
    requires x in Map(Strip, parts) && x != "" && forall i :: 0 <= i < |parts| ==> ',' !in parts[i]
    ensures CleanItem(x)
  {
    InMap(Strip, parts, x);
    var p :| p in parts && Strip(p) == x;
  }

  /** Whatever the stored text, the list read from it is clean. */
  lemma ProfilesClean(value: Option<string>)
    ensures Clean(Profiles(value))
  {
    if value.Some? {
      var parts := Split(value.value, ',');
      forall x | x in Profiles(value) ensures CleanItem(x) {
        assert x in NonEmpty(Map(Strip, parts));
        StrippedItem(parts, x);
      }
    }
  }

  /** A list is read back as it was stored exactly when it is clean. */
  lemma ReadsBackExactly(items: seq<string>)
    ensures Profiles(Some(Join(items, ','))) == items <==> Clean(items)
  {
    ProfilesClean(Some(Join(items, ',')));
    if Clean(items) {
      if items == [] {
        assert Map(Strip, [""]) == [""];
        assert NonEmpty([""]) == [];
      } else {
        SplitJoin(items, ',');
        assert Map(Strip, items) == items;
        NonEmptyAll(items);
        FirstSeenFixed(items);
      }
    }
  }

  function Without(items: seq<string>, x: string): (r: seq<string>)
    ensures forall y :: y in r <==> y in items && y != x
  {
    if items == [] then []
    else Without(items[..|items| - 1], x) + (if items[|items| - 1] == x then [] else [items[|items| - 1]])
  }

  function Apply(action: Action, current: seq<string>, wanted: string): seq<string> {
    match action
    case Replace => [wanted]
    case Remove => Without(current, wanted)
    case Add => if wanted in current then current else current + [wanted]
  }

  /** The attribute value after an assignment. */
  function Reassigned(action: Action, value: Option<string>, wanted: string): string {
    Join(Apply(action, Profiles(value), Strip(wanted)), ',')
  }

  lemma {:induction false} WithoutClean(items: seq<string>, x: string)
    requires Clean(items)
    ensures Clean(Without(items, x))
  {
    if items != [] {
      var front := items[..|items| - 1];
      WithoutClean(front, x);
      assert items[|items| - 1] !in front;
    }
  }

  lemma {:induction false} WithoutAbsent(items: seq<string>, x: string)
    requires x !in items
    ensures Without(items, x) == items
  {
    if items != [] { WithoutAbsent(items[..|items| - 1], x); }
  }

  lemma ApplyClean(action: Action, current: seq<string>, wanted: string)
    requires Clean(current) && CleanItem(wanted)
    ensures Clean(Apply(action, current, wanted))
  {
    if action.Remove? { WithoutClean(current, wanted); }
  }

  /** An assignment touches the wanted profile and nothing else, unless it replaces the list. */
  lemma ApplyOnly(action: Action, current: seq<string>, x: string)
    ensures x in Apply(action, current, x) <==> !action.Remove?
    ensures !action.Replace? ==> Without(Apply(action, current, x), x) == Without(current, x)
  {
    if action.Remove? { WithoutAbsent(Without(current, x), x); }
    if action.Add? && x !in current { assert (current + [x])[..|current|] == current; }
  }

  lemma ApplyTwice(action: Action, current: seq<string>, x: string)
    ensures Apply(action, Apply(action, current, x), x) == Apply(action, current, x)
  {
    if action.Remove? { WithoutAbsent(Without(current, x), x); }
  }

  lemma AddThenRemove(current: seq<string>, x: string)
    requires x !in current
    ensures Apply(Remove, Apply(Add, current, x), x) == current
  {
    ApplyOnly(Add, current, x);
    WithoutAbsent(current, x);
  }

  /** For any stored text, an assignment of a usable profile id stores a list that reads back as it was meant. */
  lemma AssignmentReadsBack(action: Action, value: Option<string>, wanted: string)
    requires Strip(wanted) != "" && ',' !in wanted
    ensures Profiles(Some(Reassigned(action, value, wanted))) == Apply(action, Profiles(value), Strip(wanted))
  {
    ProfilesClean(value);
    ApplyClean(action, Profiles(value), Strip(wanted));
    ReadsBackExactly(Apply(action, Profiles(value), Strip(wanted)));
  }

  /** So every other profile stays in its place, and the wanted one is stored unless it was to be removed. */
  lemma AssignmentIsExact(action: Action, value: Option<string>, wanted: string)
    requires Strip(wanted) != "" && ',' !in wanted
    ensures Strip(wanted) in Profiles(Some(Reassigned(action, value, wanted))) <==> !action.Remove?
    ensures !action.Replace? ==>
              Without(Profiles(Some(Reassigned(action, value, wanted))), Strip(wanted)) ==
              Without(Profiles(value), Strip(wanted))
  {
    AssignmentReadsBack(action, value, wanted);
    ApplyOnly(action, Profiles(value), Strip(wanted));
  }

  /** Repeating an assignment changes nothing. */
  lemma AssignmentRepeats(action: Action, value: Option<string>, wanted: string)
    requires Strip(wanted) != "" && ',' !in wanted
    ensures var once := Reassigned(action, value, wanted); Reassigned(action, Some(once), wanted) == once
  {
    AssignmentReadsBack(action, value, wanted);
    ApplyTwice(action, Profiles(value), Strip(wanted));
  }

  /** Removing what was just added undoes it. */
  lemma RemovalUndoesAddition(value: Option<string>, wanted: string)
    requires Strip(wanted) != "" && ',' !in wanted && Strip(wanted) !in Profiles(value)
    ensures Reassigned(Remove, Some(Reassigned(Add, value, wanted)), wanted) == Join(Profiles(value), ',')
  {
    AssignmentReadsBack(Add, value, wanted);
    AddThenRemove(Profiles(value), Strip(wanted));
  }
}
