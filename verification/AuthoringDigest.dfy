/** What the digests of an authoring run stand for.

The hash is a parameter: a function to hexadecimal text.
 */
module AuthoringDigest {
  import opened Sequences
  import opened Sorting
  import Decimal
  import Strings

  const UNIT_SEPARATOR: char := '\U{1F}'

  datatype Classification = Automatable | Manual | Unsupported

  datatype Requirement =
    Requirement(classification: Classification, controlKey: string, locators: seq<string>, text: string)

  function Name(c: Classification): string {
    match c case Automatable => "AUTOMATABLE" case Manual => "MANUAL" case Unsupported => "UNSUPPORTED"
  }

  /** The control key, which counts as empty when it is missing, and the locators in order. */
  function Located(q: Requirement): seq<string> { [q.controlKey] + Sort(Strings.Below, q.locators) }

  function Normalized(text: string): string { Strings.Join(Strings.Words(text), ' ') }

  /** The fields a requirement is identified by. */
  function Fields(q: Requirement): seq<string> { [Name(q.classification)] + Located(q) + [Normalized(q.text)] }

  function Identity(q: Requirement): string { Strings.Join(Fields(q), UNIT_SEPARATOR) }

  /** Neither the key nor a locator contains the separator. */
  predicate Separable(q: Requirement) {
    UNIT_SEPARATOR !in q.controlKey && forall l :: l in q.locators ==> UNIT_SEPARATOR !in l
  }

  /** The statement reduced to its words, however they were spaced. */
  lemma NormalizedExactly(text: string, words: seq<string>, gaps: seq<string>)
    requires Strings.SpacedAs(text, words, gaps)
    ensures Normalized(text) == Strings.Join(words, ' ')
  {
    Strings.WordsOfSpaced(text, words, gaps);
  }

  lemma NormalizedIsSeparable(text: string)
    ensures UNIT_SEPARATOR !in Normalized(text)
  {
    assert Strings.IsSpace(UNIT_SEPARATOR);
    Strings.JoinChars(Strings.Words(text), ' ', UNIT_SEPARATOR);
  }

  lemma SortMembers(s: seq<string>)
    ensures forall x :: x in Sort(Strings.Below, s) <==> x in s
    ensures multiset(Sort(Strings.Below, s)) == multiset(s)
  {
    Strings.BelowOrder();
    SortIsStable(Strings.Below, s);
    forall x ensures x in Sort(Strings.Below, s) <==> x in s {
      assert x in multiset(Sort(Strings.Below, s)) <==> x in multiset(s);
    }
  }

  function Pieces(parts: seq<string>): seq<string> { Strings.Flat(parts, UNIT_SEPARATOR) }

  lemma NameIsOnePiece(c: Classification)
    ensures Pieces([Name(c)]) == [Name(c)]
  {
    Strings.FlatPlain([Name(c)], UNIT_SEPARATOR);
  }

  lemma NamesDiffer(c: Classification, d: Classification)
    ensures Name(c) == Name(d) <==> c == d
  {
    assert "AUTOMATABLE"[0] == 'A' && "MANUAL"[0] == 'M' && "UNSUPPORTED"[0] == 'U';
  }

  /** The class and the words are one piece each; only the key and the locators may fall into more. */
  lemma PiecesOfFields(q: Requirement)
    ensures Pieces(Fields(q)) == [Name(q.classification)] + Pieces(Located(q)) + [Normalized(q.text)]
  {
    var n, l, t := [Name(q.classification)], Located(q), [Normalized(q.text)];
    Strings.FlatPlus(n + l, t, UNIT_SEPARATOR);
    Strings.FlatPlus(n, l, UNIT_SEPARATOR);
    NameIsOnePiece(q.classification);
    NormalizedIsSeparable(q.text);
    Strings.FlatPlain(t, UNIT_SEPARATOR);
  }

  lemma BetweenEnds(a: string, s: seq<string>, b: string, c: string, r: seq<string>, d: string)
    ensures [a] + s + [b] == [c] + r + [d] <==> a == c && s == r && b == d
  {
    var x, y := [a] + s + [b], [c] + r + [d];
    assert x[0] == a && y[0] == c && x[|x| - 1] == b && y[|y| - 1] == d;
    assert x[1..|x| - 1] == s && y[1..|y| - 1] == r;
  }

  /** Two requirements share an identity if and only if their class and their words agree and their key and
      sorted locators, cut at every separator in them, are the same pieces. */
  lemma IdentityExactly(q: Requirement, r: Requirement)
    ensures Identity(q) == Identity(r) <==>
            && q.classification == r.classification && Normalized(q.text) == Normalized(r.text)
            && Pieces(Located(q)) == Pieces(Located(r))
  {
    Strings.JoinExactly(Fields(q), Fields(r), UNIT_SEPARATOR);
    PiecesOfFields(q);
    PiecesOfFields(r);
    NamesDiffer(q.classification, r.classification);
    BetweenEnds(Name(q.classification), Pieces(Located(q)), Normalized(q.text),
                Name(r.classification), Pieces(Located(r)), Normalized(r.text));
  }

  /** Same class, key and words, and the same locators in any order. */
  predicate SameRequirement(q: Requirement, r: Requirement) {
    && q.classification == r.classification && q.controlKey == r.controlKey
    && multiset(q.locators) == multiset(r.locators) && Normalized(q.text) == Normalized(r.text)
  }

  lemma LocatedExactly(q: Requirement, r: Requirement)
    ensures Located(q) == Located(r) <==> q.controlKey == r.controlKey && multiset(q.locators) == multiset(r.locators)
  {
    var a, b := Located(q), Located(r);
    assert a[0] == q.controlKey && b[0] == r.controlKey;
    assert a[1..] == Sort(Strings.Below, q.locators) && b[1..] == Sort(Strings.Below, r.locators);
    Strings.BelowOrder();
    SortEqualIffSameMultiset(Strings.Below, q.locators, r.locators);
  }

  lemma LocatedPlain(q: Requirement)
    requires Separable(q)
    ensures Pieces(Located(q)) == Located(q)
  {
    SortMembers(q.locators);
    var l := Located(q);
    forall i | 0 <= i < |l| ensures UNIT_SEPARATOR !in l[i] {
      if i > 0 { assert l[i] in Sort(Strings.Below, q.locators); }
    }
    Strings.FlatPlain(l, UNIT_SEPARATOR);
  }

  /** Different requirements share an identity if and only if class and words agree and cutting key and locators
      at the separators takes the difference away; so one of them contains a separator. */
  lemma CollisionExactly(q: Requirement, r: Requirement)
    ensures !SameRequirement(q, r) && Identity(q) == Identity(r) <==>
            && q.classification == r.classification && Normalized(q.text) == Normalized(r.text)
            && Located(q) != Located(r) && Pieces(Located(q)) == Pieces(Located(r))
    ensures !SameRequirement(q, r) && Identity(q) == Identity(r) ==> !Separable(q) || !Separable(r)
  {
    IdentityExactly(q, r);
    LocatedExactly(q, r);
    if Separable(q) && Separable(r) {
      LocatedPlain(q);
      LocatedPlain(r);
    }
  }

  /** Without separators the identity is that of the requirement. */
  lemma SeparableIdentity(q: Requirement, r: Requirement)
    requires Separable(q) && Separable(r)
    ensures Identity(q) == Identity(r) <==> SameRequirement(q, r)
  {
    IdentityExactly(q, r);
    LocatedExactly(q, r);
    LocatedPlain(q);
    LocatedPlain(r);
  }

  /** Whatever the locators contain, their order does not matter. */
  lemma LocatorOrderIrrelevant(q: Requirement, locators: seq<string>)
    requires multiset(q.locators) == multiset(locators)
    ensures Identity(q.(locators := locators)) == Identity(q)
  {
    Strings.BelowOrder();
    SortEqualIffSameMultiset(Strings.Below, q.locators, locators);
  }

  /** A locator with the separator in it can stand for two. */
  lemma SeparatorMerges(a: string, b: string, q: Requirement)
    requires Strings.Below(a, b)
    ensures Identity(q.(locators := [a + ([UNIT_SEPARATOR] + b)])) == Identity(q.(locators := [a, b]))
  {
    var one, k := a + ([UNIT_SEPARATOR] + b), q.controlKey;
    SortedPair(a, b);
    assert Located(q.(locators := [one])) == [k] + [one] && Located(q.(locators := [a, b])) == [k] + [a, b];
    Strings.FlatPlus([k], [one], UNIT_SEPARATOR);
    Strings.FlatPlus([k], [a, b], UNIT_SEPARATOR);
    PairPieces(a, b);
    IdentityExactly(q.(locators := [one]), q.(locators := [a, b]));
  }

  lemma SortedPair(a: string, b: string)
    requires Strings.Below(a, b)
    ensures Sort(Strings.Below, [a, b]) == [a, b]
  {
    Strings.BelowOrder();
    SortOfSorted(Strings.Below, [a, b]);
  }

  lemma PairPieces(a: string, b: string)
    ensures Pieces([a + ([UNIT_SEPARATOR] + b)]) == Pieces([a, b])
  {
    Strings.SplitPlus(a, b, UNIT_SEPARATOR);
    Strings.FlatPlus([a], [b], UNIT_SEPARATOR);
    assert [a] + [b] == [a, b];
    Strings.FlatOne(a, UNIT_SEPARATOR);
    Strings.FlatOne(b, UNIT_SEPARATOR);
    Strings.FlatOne(a + ([UNIT_SEPARATOR] + b), UNIT_SEPARATOR);
  }

  // ---- the digest of a whole result ----------------------------------------------------------------------

  /** The requirement digests of the four groups. */
  datatype Groups = Groups(accepted: seq<string>, manual: seq<string>, unsupported: seq<string>, rejected: seq<string>)

  function Count(name: string, n: nat): string { name + "=" + Decimal.Digits(n) }

  function Tagged(name: string, digests: seq<string>): seq<string> {
    Sort(Strings.Below, Map(d => name + ":" + d, digests))
  }

  /** The lines of the pre-image: the counts by name, then the groups. */
  function Parts(g: Groups): seq<string> {
    Counts(g) + Tagged("accepted", g.accepted) + Tagged("manual", g.manual)
    + Tagged("unsupported", g.unsupported) + Tagged("rejected", g.rejected)
  }

  function Counts(g: Groups): (r: seq<string>)
    ensures |r| == 4
  {
    [Count("accepted", |g.accepted|), Count("manual", |g.manual|),
     Count("rejected", |g.rejected|), Count("unsupported", |g.unsupported|)]
  }

  function PreImage(g: Groups): string { Strings.Join(Parts(g), UNIT_SEPARATOR) }

  predicate Hex(c: char) { '0' <= c <= '9' || 'a' <= c <= 'f' }

  predicate AllHex(digests: seq<string>) { forall d, c :: d in digests && c in d ==> Hex(c) }

  predicate Digests(g: Groups) { AllHex(g.accepted) && AllHex(g.manual) && AllHex(g.unsupported) && AllHex(g.rejected) }

  lemma CountSeparable(name: string, n: nat)
    requires UNIT_SEPARATOR !in name
    ensures UNIT_SEPARATOR !in Count(name, n)
  {
  }

  lemma CountInjective(name: string, m: nat, n: nat)
    requires Count(name, m) == Count(name, n)
    ensures m == n
  {
    assert Count(name, m)[|name| + 1..] == Decimal.Digits(m) && Count(name, n)[|name| + 1..] == Decimal.Digits(n);
    Decimal.NatOfDigits(m);
    Decimal.NatOfDigits(n);
  }

  lemma TaggedSeparable(name: string, digests: seq<string>)
    requires UNIT_SEPARATOR !in name && AllHex(digests)
    ensures forall x :: x in Tagged(name, digests) ==> UNIT_SEPARATOR !in x
    ensures |Tagged(name, digests)| == |digests|
  {
    var tag := (d: string) => name + ":" + d;
    SortMembers(Map(tag, digests));
    forall x | x in Tagged(name, digests) ensures UNIT_SEPARATOR !in x {
      InMap(tag, digests, x);
      var d :| d in digests && tag(d) == x;
      assert !Hex(UNIT_SEPARATOR);
    }
  }

  lemma {:induction false} TaggedBack(name: string, digests: seq<string>)
    ensures Map((x: string) => if |x| > |name| then x[|name| + 1..] else "", Map(d => name + ":" + d, digests))
            == digests
  {
    var tags := Map(d => name + ":" + d, digests);
    forall i | 0 <= i < |digests| ensures tags[i][|name| + 1..] == digests[i] { }
  }

  /** A tagged group is determined by the multiset of its digests, and determines it. */
  lemma TaggedExactly(name: string, a: seq<string>, b: seq<string>)
    ensures Tagged(name, a) == Tagged(name, b) <==> multiset(a) == multiset(b)
  {
    var tag := (d: string) => name + ":" + d;
    var untag := (x: string) => if |x| > |name| then x[|name| + 1..] else "";
    Strings.BelowOrder();
    SortEqualIffSameMultiset(Strings.Below, Map(tag, a), Map(tag, b));
    if multiset(a) == multiset(b) { MapMultiset(tag, a, b); }
    if multiset(Map(tag, a)) == multiset(Map(tag, b)) {
      MapMultiset(untag, Map(tag, a), Map(tag, b));
      TaggedBack(name, a);
      TaggedBack(name, b);
    }
  }

  lemma PartsSplit(g: Groups)
    requires Digests(g)
    ensures Strings.Split(PreImage(g), UNIT_SEPARATOR) == Parts(g)
  {
    TaggedSeparable("accepted", g.accepted);
    TaggedSeparable("manual", g.manual);
    TaggedSeparable("unsupported", g.unsupported);
    TaggedSeparable("rejected", g.rejected);
    CountSeparable("accepted", |g.accepted|);
    CountSeparable("manual", |g.manual|);
    CountSeparable("rejected", |g.rejected|);
    CountSeparable("unsupported", |g.unsupported|);
    forall i | 0 <= i < |Parts(g)| ensures UNIT_SEPARATOR !in Parts(g)[i] {
      assert Parts(g)[i] in Parts(g);
    }
    Strings.SplitJoin(Parts(g), UNIT_SEPARATOR);
  }

  predicate SameGroups(g: Groups, h: Groups) {
    && multiset(g.accepted) == multiset(h.accepted) && multiset(g.manual) == multiset(h.manual)
    && multiset(g.unsupported) == multiset(h.unsupported) && multiset(g.rejected) == multiset(h.rejected)
  }

  lemma Cut<T>(a: seq<T>, b: seq<T>, c: seq<T>, d: seq<T>)
    requires |a| == |c|
    ensures a + b == c + d <==> a == c && b == d
  {
    if a + b == c + d {
      assert (a + b)[..|a|] == a && (c + d)[..|a|] == c && (a + b)[|a|..] == b && (c + d)[|a|..] == d;
    }
  }

  lemma SameSizes<T>(a: seq<T>, b: seq<T>)
    requires multiset(a) == multiset(b)
    ensures |a| == |b|
  {
    assert |multiset(a)| == |a|;
  }

  lemma CountsExactly(g: Groups, h: Groups)
    ensures Counts(g) == Counts(h) <==>
            && |g.accepted| == |h.accepted| && |g.manual| == |h.manual|
            && |g.rejected| == |h.rejected| && |g.unsupported| == |h.unsupported|
  {
    var a, b := Counts(g), Counts(h);
    if a == b {
      assert a[0] == b[0] && a[1] == b[1] && a[2] == b[2] && a[3] == b[3];
      CountInjective("accepted", |g.accepted|, |h.accepted|);
      CountInjective("manual", |g.manual|, |h.manual|);
      CountInjective("rejected", |g.rejected|, |h.rejected|);
      CountInjective("unsupported", |g.unsupported|, |h.unsupported|);
    }
  }

  lemma PartsExactly(g: Groups, h: Groups)
    requires Counts(g) == Counts(h)
    ensures Parts(g) == Parts(h) <==> SameGroups(g, h)
  {
    CountsExactly(g, h);
    var a, b := Tagged("accepted", g.accepted), Tagged("manual", g.manual);
    var c, d := Tagged("unsupported", g.unsupported), Tagged("rejected", g.rejected);
    var e, f := Tagged("accepted", h.accepted), Tagged("manual", h.manual);
    var i, j := Tagged("unsupported", h.unsupported), Tagged("rejected", h.rejected);
    Cut(Counts(g) + a + b + c, d, Counts(h) + e + f + i, j);
    Cut(Counts(g) + a + b, c, Counts(h) + e + f, i);
    Cut(Counts(g) + a, b, Counts(h) + e, f);
    Cut(Counts(g), a, Counts(h), e);
    TaggedExactly("accepted", g.accepted, h.accepted);
    TaggedExactly("manual", g.manual, h.manual);
    TaggedExactly("unsupported", g.unsupported, h.unsupported);
    TaggedExactly("rejected", g.rejected, h.rejected);
  }

  lemma SameGroupsCount(g: Groups, h: Groups)
    requires SameGroups(g, h)
    ensures Counts(g) == Counts(h)
  {
    SameSizes(g.accepted, h.accepted);
    SameSizes(g.manual, h.manual);
    SameSizes(g.unsupported, h.unsupported);
    SameSizes(g.rejected, h.rejected);
  }

  lemma PartsCounts(g: Groups)
    ensures Parts(g)[..4] == Counts(g)
  {
  }

  /** Two results have the same pre-image exactly when each group carries the same digests as often, in any
      order. */
  lemma PreImageExactly(g: Groups, h: Groups)
    requires Digests(g) && Digests(h)
    ensures PreImage(g) == PreImage(h) <==> SameGroups(g, h)
  {
    PartsSplit(g);
    PartsSplit(h);
    PartsCounts(g);
    PartsCounts(h);
    if SameGroups(g, h) { SameGroupsCount(g, h); }
    if Counts(g) == Counts(h) { PartsExactly(g, h); }
  }

  // ---- down to the requirements --------------------------------------------------------------------------

  /** The requirements a run produced, by group. */
  datatype Produced =
    Produced(accepted: seq<Requirement>, manual: seq<Requirement>, unsupported: seq<Requirement>,
             rejected: seq<Requirement>)

  function GroupsOf(hash: string -> string, p: Produced): Groups {
    var digest := (q: Requirement) => hash(Identity(q));
    Groups(Map(digest, p.accepted), Map(digest, p.manual), Map(digest, p.unsupported), Map(digest, p.rejected))
  }

  function ResultDigest(hash: string -> string, p: Produced): string { hash(PreImage(GroupsOf(hash, p))) }

  lemma {:induction false} DigestsAreHex(hash: string -> string, qs: seq<Requirement>)
    requires forall s, c :: c in hash(s) ==> Hex(c)
    ensures AllHex(Map((q: Requirement) => hash(Identity(q)), qs))
  {
    var digest := (q: Requirement) => hash(Identity(q));
    forall d, c | d in Map(digest, qs) && c in d ensures Hex(c) {
      InMap(digest, qs, d);
      var q :| q in qs && digest(q) == d;
      assert c in hash(Identity(q));
    }
  }

  lemma AllDigests(hash: string -> string, p: Produced)
    requires forall s, c :: c in hash(s) ==> Hex(c)
    ensures Digests(GroupsOf(hash, p))
  {
    DigestsAreHex(hash, p.accepted);
    DigestsAreHex(hash, p.manual);
    DigestsAreHex(hash, p.unsupported);
    DigestsAreHex(hash, p.rejected);
  }

  /** With a hexadecimal hash that does not collide on their pre-images, two runs have the same result digest
      exactly when their groups carry the same requirement digests as often. */
  lemma ResultDigestExactly(hash: string -> string, p: Produced, r: Produced)
    requires forall s, c :: c in hash(s) ==> Hex(c)
    requires ResultDigest(hash, p) == ResultDigest(hash, r) ==>
               PreImage(GroupsOf(hash, p)) == PreImage(GroupsOf(hash, r))
    ensures ResultDigest(hash, p) == ResultDigest(hash, r) <==> SameGroups(GroupsOf(hash, p), GroupsOf(hash, r))
  {
    AllDigests(hash, p);
    AllDigests(hash, r);
    PreImageExactly(GroupsOf(hash, p), GroupsOf(hash, r));
  }

  /** What the identity keeps of a requirement. */
  datatype Essence = Essence(classification: Classification, pieces: seq<string>, words: string)

  function EssenceOf(q: Requirement): Essence {
    Essence(q.classification, Pieces(Located(q)), Normalized(q.text))
  }

  predicate SameEssences(a: seq<Requirement>, b: seq<Requirement>) {
    multiset(Map(EssenceOf, a)) == multiset(Map(EssenceOf, b))
  }

  /** The hash tells the identities of these requirements apart. */
  ghost predicate TellsApart(hash: string -> string, a: seq<Requirement>, b: seq<Requirement>) {
    forall q, r :: q in a && r in b && hash(Identity(q)) == hash(Identity(r)) ==> Identity(q) == Identity(r)
  }

  lemma GroupExactly(hash: string -> string, a: seq<Requirement>, b: seq<Requirement>)
    requires TellsApart(hash, a, b)
    ensures var digest := (q: Requirement) => hash(Identity(q));
            multiset(Map(digest, a)) == multiset(Map(digest, b)) <==> SameEssences(a, b)
  {
    var digest := (q: Requirement) => hash(Identity(q));
    forall q, r | q in a && r in b ensures digest(q) == digest(r) <==> EssenceOf(q) == EssenceOf(r) {
      IdentityExactly(q, r);
    }
    if multiset(Map(digest, a)) == multiset(Map(digest, b)) { CoarserMultiset(EssenceOf, digest, a, b); }
    if SameEssences(a, b) { CoarserMultiset(digest, EssenceOf, a, b); }
  }

  /** Down to the requirements: where the hash collides neither on the pre-images nor on the identities, two runs
      have the same result digest if and only if each group holds as many requirements of each class, words and
      pieces of key and locators. */
  lemma ResultDigestOfRequirements(hash: string -> string, p: Produced, r: Produced)
    requires forall s, c :: c in hash(s) ==> Hex(c)
    requires ResultDigest(hash, p) == ResultDigest(hash, r) ==>
               PreImage(GroupsOf(hash, p)) == PreImage(GroupsOf(hash, r))
    requires TellsApart(hash, p.accepted, r.accepted) && TellsApart(hash, p.manual, r.manual)
    requires TellsApart(hash, p.unsupported, r.unsupported) && TellsApart(hash, p.rejected, r.rejected)
    ensures ResultDigest(hash, p) == ResultDigest(hash, r) <==>
            && SameEssences(p.accepted, r.accepted) && SameEssences(p.manual, r.manual)
            && SameEssences(p.unsupported, r.unsupported) && SameEssences(p.rejected, r.rejected)
  {
    ResultDigestExactly(hash, p, r);
    GroupExactly(hash, p.accepted, r.accepted);
    GroupExactly(hash, p.manual, r.manual);
    GroupExactly(hash, p.unsupported, r.unsupported);
    GroupExactly(hash, p.rejected, r.rejected);
  }

  // ---- texts that are hashed -------------------------------------------------------------------------------

  lemma FourJoined(a: string, b: string, c: string, d: string, sep: char)
    ensures Strings.Join([a, b, c, d], sep) == a + [sep] + b + [sep] + c + [sep] + d
  {
    assert [a, b, c, d][1..] == [b, c, d] && [b, c, d][1..] == [c, d] && [c, d][1..] == [d];
    assert Strings.Join([c, d], sep) == c + ([sep] + d);
    assert Strings.Join([b, c, d], sep) == b + ([sep] + (c + ([sep] + d)));
  }

  /** A requirement with one locator: class, key, locator and words, with unit separators between. */
  lemma IdentityOfOne(q: Requirement, locator: string)
    requires q.locators == [locator]
    ensures var name := match q.classification
                        case Automatable => "AUTOMATABLE"
                        case Manual => "MANUAL"
                        case Unsupported => "UNSUPPORTED";
            Identity(q) == name + "\U{1F}" + q.controlKey + "\U{1F}" + locator + "\U{1F}" + Normalized(q.text)
  {
    assert Sort(Strings.Below, [locator]) == [locator] by { assert [locator][1..] == []; }
    assert Fields(q) == [Name(q.classification), q.controlKey, locator, Normalized(q.text)];
    FourJoined(Name(q.classification), q.controlKey, locator, Normalized(q.text), UNIT_SEPARATOR);
  }

  lemma NoneTagged(name: string)
    ensures Tagged(name, []) == []
  {
  }

  /** A run that produced nothing. */
  lemma EmptyPreImage()
    ensures PreImage(Groups([], [], [], [])) ==
            "accepted=0" + "\U{1F}" + "manual=0" + "\U{1F}" + "rejected=0" + "\U{1F}" + "unsupported=0"
  {
    var g := Groups([], [], [], []);
    assert Decimal.Digits(0) == "0";
    assert Count("accepted", 0) == "accepted=0" && Count("manual", 0) == "manual=0";
    assert Count("rejected", 0) == "rejected=0" && Count("unsupported", 0) == "unsupported=0";
    NoneTagged("accepted");
    NoneTagged("manual");
    NoneTagged("unsupported");
    NoneTagged("rejected");
    assert Parts(g) == Counts(g);
    FourJoined("accepted=0", "manual=0", "rejected=0", "unsupported=0", UNIT_SEPARATOR);
  }
}
