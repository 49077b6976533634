/** Python's `str.strip()`, `str.split()` and `str.join()` with one separator, and dropping empty items. */
module Strings {
  import Sequences
  import Sorting
  import Text

  /** What `str.strip()` takes off both ends. */
  predicate IsSpace(c: char) { Text.IsSpace(c as int) }

  predicate Trimmed(s: string) { s == "" || (!IsSpace(s[0]) && !IsSpace(s[|s| - 1])) }

  predicate AllSpace(s: string) { forall i :: 0 <= i < |s| ==> IsSpace(s[i]) }

  function StripLeft(s: string): (r: string)
    ensures r == "" || !IsSpace(r[0])
    ensures |r| <= |s| && r == s[|s| - |r|..]
    ensures AllSpace(s[..|s| - |r|])
  {
    if s != "" && IsSpace(s[0]) then
      var r := StripLeft(s[1..]);
      assert s[..|s| - |r|] == [s[0]] + s[1..][..|s| - 1 - |r|];
      r
    else s
  }

  function StripRight(s: string): (r: string)
    ensures r == "" || !IsSpace(r[|r| - 1])
    ensures r <= s && AllSpace(s[|r|..])
  {
    if s != "" && IsSpace(s[|s| - 1]) then StripRight(s[..|s| - 1]) else s
  }

  function Strip(s: string): (r: string)
    ensures Trimmed(r)
    ensures r == s <==> Trimmed(s)
    ensures forall c :: c in r ==> c in s
  {
    StripRight(StripLeft(s))
  }

  /** From index `k` on stands `r`, with only white space around it. */
  predicate Middle(s: string, k: nat, r: string) {
    k + |r| <= |s| && s[k..k + |r|] == r && AllSpace(s[..k]) && AllSpace(s[k + |r|..])
  }

  lemma MiddleOf(s: string, l: string, r: string)
    requires |l| <= |s| && l == s[|s| - |l|..] && AllSpace(s[..|s| - |l|])
    requires r <= l && AllSpace(l[|r|..])
    ensures Middle(s, |s| - |l|, r)
  {
    var k := |s| - |l|;
    assert s[k..k + |r|] == l[..|r|] && s[k + |r|..] == l[|r|..];
  }

  /** Stripping takes off the white space around the text and nothing else. */
  lemma StripIsMiddle(s: string)
    ensures Trimmed(Strip(s)) && Middle(s, |s| - |StripLeft(s)|, Strip(s))
  {
    var l := StripLeft(s);
    var r := StripRight(l);
    assert r == Strip(s);
    MiddleOf(s, l, r);
  }

  lemma StripKeeps(s: string, c: char)
    requires c in s && !IsSpace(c)
    ensures c in Strip(s)
  {
    StripLeftKeeps(s, c);
    StripRightKeeps(StripLeft(s), c);
  }

  lemma {:induction false} StripLeftKeeps(s: string, c: char)
    requires c in s && !IsSpace(c)
    ensures c in StripLeft(s)
  {
    if IsSpace(s[0]) { assert c in s[1..]; StripLeftKeeps(s[1..], c); }
  }

  lemma {:induction false} StripRightKeeps(s: string, c: char)
    requires c in s && !IsSpace(c)
    ensures c in StripRight(s)
  {
    var n := |s| - 1;
    if IsSpace(s[n]) { assert s == s[..n] + [s[n]]; StripRightKeeps(s[..n], c); }
  }

  function NonEmpty(items: seq<string>): (r: seq<string>)
    ensures forall x :: x in r <==> x in items && x != ""
  {
    if items == [] then []
    else NonEmpty(items[..|items| - 1]) + (if items[|items| - 1] == "" then [] else [items[|items| - 1]])
  }

  lemma NonEmptyStep(before: seq<string>, x: string)
    ensures NonEmpty(before + [x]) == if x == "" then NonEmpty(before) else NonEmpty(before) + [x]
  {
    assert (before + [x])[..|before|] == before;
  }

  lemma {:induction false} NonEmptyAll(items: seq<string>)
    requires forall i :: 0 <= i < |items| ==> items[i] != ""
    ensures NonEmpty(items) == items
  {
    if items != [] { NonEmptyAll(items[..|items| - 1]); }
  }

  /** Python's `s.split(sep)`. */
  function Split(s: string, sep: char): (parts: seq<string>)
    ensures parts != [] && forall i :: 0 <= i < |parts| ==> sep !in parts[i]
  {
    if s == "" then [""]
    else
      var rest := Split(s[1..], sep);
      if s[0] == sep then [""] + rest else [[s[0]] + rest[0]] + rest[1..]
  }

  function Join(parts: seq<string>, sep: char): string {
    if parts == [] then "" else if |parts| == 1 then parts[0] else parts[0] + ([sep] + Join(parts[1..], sep))
  }

  /** What a list of texts falls into when each is split. */
  function Flat(parts: seq<string>, sep: char): seq<string> {
    if parts == [] then [] else Split(parts[0], sep) + Flat(parts[1..], sep)
  }

  lemma {:induction false} SplitPlus(a: string, b: string, sep: char)
    ensures Split(a + ([sep] + b), sep) == Split(a, sep) + Split(b, sep)
  {
    var s := a + ([sep] + b);
    if a == "" {
      assert s == [sep] + b && s[1..] == b;
    } else {
      assert s[1..] == a[1..] + ([sep] + b) && s[0] == a[0];
      SplitPlus(a[1..], b, sep);
    }
  }

  lemma {:induction false} SplitOne(item: string, sep: char)
    requires sep !in item
    ensures Split(item, sep) == [item]
  {
    if item != "" {
      SplitOne(item[1..], sep);
      assert [item[0]] + item[1..] == item;
    }
  }

  /** Joined texts fall into the pieces of each, in order. */
  lemma {:induction false} SplitJoinFlat(parts: seq<string>, sep: char)
    requires parts != []
    ensures Split(Join(parts, sep), sep) == Flat(parts, sep)
  {
    if |parts| == 1 {
      assert Flat(parts[1..], sep) == [];
    } else {
      SplitJoinFlat(parts[1..], sep);
      SplitPlus(parts[0], Join(parts[1..], sep), sep);
    }
  }

  lemma FlatOne(x: string, sep: char)
    ensures Flat([x], sep) == Split(x, sep)
  {
    assert [x][1..] == [] && Flat([], sep) == [];
  }

  lemma {:induction false} FlatPlain(items: seq<string>, sep: char)
    requires forall i :: 0 <= i < |items| ==> sep !in items[i]
    ensures Flat(items, sep) == items
  {
    if items != [] {
      FlatPlain(items[1..], sep);
      SplitOne(items[0], sep);
    }
  }

  lemma {:induction false} FlatPlus(a: seq<string>, b: seq<string>, sep: char)
    ensures Flat(a + b, sep) == Flat(a, sep) + Flat(b, sep)
  {
    if a == [] {
      assert a + b == b;
    } else {
      assert (a + b)[1..] == a[1..] + b;
      FlatPlus(a[1..], b, sep);
    }
  }

  /** Items without the separator are split apart again as they were joined. */
  lemma SplitJoin(items: seq<string>, sep: char)
    requires items != [] && forall i :: 0 <= i < |items| ==> sep !in items[i]
    ensures Split(Join(items, sep), sep) == items
  {
    SplitJoinFlat(items, sep);
    FlatPlain(items, sep);
  }

  /** Two lists join to one text exactly when they fall into the same pieces. */
  lemma JoinExactly(a: seq<string>, b: seq<string>, sep: char)
    requires a != [] && b != []
    ensures Join(a, sep) == Join(b, sep) <==> Flat(a, sep) == Flat(b, sep)
  {
    SplitJoinFlat(a, sep);
    SplitJoinFlat(b, sep);
    JoinSplit(Join(a, sep), sep);
    JoinSplit(Join(b, sep), sep);
  }

  /** Splitting and joining again gives the text. */
  lemma {:induction false} JoinSplit(s: string, sep: char)
    ensures Join(Split(s, sep), sep) == s
  {
    if s != "" {
      JoinSplit(s[1..], sep);
      var rest := Split(s[1..], sep);
      if s[0] == sep {
        assert ([""] + rest)[1..] == rest;
        assert "" + ([sep] + s[1..]) == s;
      } else if |rest| == 1 {
        assert s == [s[0]] + s[1..];
      } else {
        assert ([[s[0]] + rest[0]] + rest[1..])[1..] == rest[1..];
        assert [s[0]] + (rest[0] + ([sep] + Join(rest[1..], sep))) == s;
      }
    }
  }

  /** The order of `sorted` on text: code point by code point. */
  predicate Below(a: string, b: string) { Text.Below(Points(a), Points(b)) }

  function Points(s: string): seq<int> { Sequences.Map((c: char) => c as int, s) }

  lemma PointsInjective(a: string, b: string)
    requires Points(a) == Points(b)
    ensures a == b
  {
    forall i | 0 <= i < |a| ensures a[i] == b[i] {
      assert Points(a)[i] == a[i] as int && Points(b)[i] == b[i] as int;
    }
  }

  lemma BelowOrder()
    ensures Sorting.TotalPreorder(Below) && Sorting.Antisymmetric(Below)
  {
    forall a, b
      ensures Below(a, b) || Below(b, a)
      ensures Below(a, b) && Below(b, a) ==> a == b
    {
      Text.BelowTotal(Points(a), Points(b));
      if Points(a) == Points(b) { PointsInjective(a, b); }
    }
    forall a, b, c | Below(a, b) && Below(b, c) ensures Below(a, c) {
      Text.BelowTransitive(Points(a), Points(b), Points(c));
    }
  }

  function WordEnd(s: string): (k: nat)
    ensures k <= |s| && (forall i :: 0 <= i < k ==> !IsSpace(s[i])) && (k < |s| ==> IsSpace(s[k]))
  {
    if s == "" || IsSpace(s[0]) then 0 else WordEnd(s[1..]) + 1
  }

  /** Python's `s.split()`: the words between runs of white space. */
  function Words(s: string): (r: seq<string>)
    ensures forall w, c :: w in r && c in w ==> !IsSpace(c)
    decreases |s|
  {
    if s == "" then []
    else if IsSpace(s[0]) then Words(s[1..])
    else [s[..WordEnd(s)]] + Words(s[WordEnd(s)..])
  }

  // ---- what the words of a text are -----------------------------------------------------------------------

  predicate Word(w: string) { w != "" && forall i :: 0 <= i < |w| ==> !IsSpace(w[i]) }

  /** Words in order, with a gap before each and one at the end. */
  function Spaced(words: seq<string>, gaps: seq<string>): string
    requires |gaps| == |words| + 1
  {
    if words == [] then gaps[0] else gaps[0] + (words[0] + Spaced(words[1..], gaps[1..]))
  }

  /** The gaps are white space, and there is some between two words. */
  ghost predicate SpacedAs(s: string, words: seq<string>, gaps: seq<string>) {
    && |gaps| == |words| + 1 && s == Spaced(words, gaps)
    && (forall i :: 0 <= i < |words| ==> Word(words[i]))
    && (forall i :: 0 <= i < |gaps| ==> AllSpace(gaps[i]))
    && forall i :: 0 < i < |words| ==> gaps[i] != ""
  }

  lemma {:induction false} GapSkipped(gap: string, rest: string)
    requires AllSpace(gap)
    ensures Words(gap + rest) == Words(rest)
  {
    if gap == "" {
      assert gap + rest == rest;
    } else {
      assert (gap + rest)[1..] == gap[1..] + rest;
      GapSkipped(gap[1..], rest);
    }
  }

  lemma WordTaken(w: string, rest: string)
    requires Word(w) && (rest == "" || IsSpace(rest[0]))
    ensures Words(w + rest) == [w] + Words(rest)
  {
    var s := w + rest;
    assert s[0] == w[0];
    assert forall i :: 0 <= i < |w| ==> s[i] == w[i];
    if rest != "" { assert s[|w|] == rest[0]; }
    assert s[..|w|] == w && s[|w|..] == rest;
  }

  lemma SpacedTail(s: string, words: seq<string>, gaps: seq<string>)
    requires SpacedAs(s, words, gaps) && words != []
    ensures SpacedAs(Spaced(words[1..], gaps[1..]), words[1..], gaps[1..])
    ensures var rest := Spaced(words[1..], gaps[1..]); rest == "" || IsSpace(rest[0])
  {
    assert AllSpace(gaps[1]);
    if |words| > 1 { assert gaps[1] != ""; }
  }

  lemma {:induction false} WordsOfSpaced(s: string, words: seq<string>, gaps: seq<string>)
    requires SpacedAs(s, words, gaps)
    ensures Words(s) == words
    decreases |words|
  {
    if words == [] {
      GapSkipped(gaps[0], "");
      assert gaps[0] + "" == gaps[0];
    } else {
      var rest := Spaced(words[1..], gaps[1..]);
      SpacedTail(s, words, gaps);
      GapSkipped(gaps[0], words[0] + rest);
      WordTaken(words[0], rest);
      WordsOfSpaced(rest, words[1..], gaps[1..]);
    }
  }

  lemma MoreSpace(c: char, s: string, words: seq<string>, gaps: seq<string>)
    requires SpacedAs(s, words, gaps) && IsSpace(c)
    ensures SpacedAs([c] + s, words, [[c] + gaps[0]] + gaps[1..])
  {
    var more := [[c] + gaps[0]] + gaps[1..];
    assert more[1..] == gaps[1..];
    if words == [] {
      assert Spaced(words, more) == [c] + s;
    } else {
      var rest := words[0] + Spaced(words[1..], gaps[1..]);
      assert ([c] + gaps[0]) + rest == [c] + (gaps[0] + rest);
    }
  }

  lemma OneMoreWord(w: string, s: string, words: seq<string>, gaps: seq<string>)
    requires SpacedAs(s, words, gaps) && Word(w) && (words == [] || gaps[0] != "")
    ensures SpacedAs(w + s, [w] + words, [""] + gaps)
  {
    assert ([w] + words)[1..] == words && ([""] + gaps)[1..] == gaps;
    assert "" + (w + s) == w + s;
  }

  lemma NoGapFirst(s: string, words: seq<string>, gaps: seq<string>)
    requires SpacedAs(s, words, gaps) && words != [] && gaps[0] == ""
    ensures s != "" && !IsSpace(s[0])
  {
    assert s == words[0] + Spaced(words[1..], gaps[1..]) && s[0] == words[0][0];
  }

  lemma SpaceFirst(s: string, gaps: seq<string>)
    requires s != "" && IsSpace(s[0]) && SpacedAs(s[1..], Words(s[1..]), gaps)
    ensures SpacedAs(s, Words(s), [[s[0]] + gaps[0]] + gaps[1..])
  {
    MoreSpace(s[0], s[1..], Words(s[1..]), gaps);
    assert [s[0]] + s[1..] == s;
  }

  lemma WordFirst(s: string, k: nat, words: seq<string>, gaps: seq<string>)
    requires k <= |s| && Word(s[..k]) && (k < |s| ==> IsSpace(s[k])) && SpacedAs(s[k..], words, gaps)
    ensures SpacedAs(s, [s[..k]] + words, [""] + gaps)
  {
    if words != [] && gaps[0] == "" { NoGapFirst(s[k..], words, gaps); }
    OneMoreWord(s[..k], s[k..], words, gaps);
    assert s[..k] + s[k..] == s;
  }

  lemma {:induction false} SpacedOf(s: string) returns (gaps: seq<string>)
    ensures SpacedAs(s, Words(s), gaps)
    decreases |s|
  {
    if s == "" {
      gaps := [""];
    } else if IsSpace(s[0]) {
      gaps := SpacedOf(s[1..]);
      SpaceFirst(s, gaps);
      gaps := [[s[0]] + gaps[0]] + gaps[1..];
    } else {
      var k := WordEnd(s);
      gaps := SpacedOf(s[k..]);
      WordFirst(s, k, Words(s[k..]), gaps);
      gaps := [""] + gaps;
    }
  }

  /** The words are what stands between the white space: a text has one list of words, whatever its gaps. */
  lemma WordsExactly(s: string, words: seq<string>)
    ensures Words(s) == words <==> exists gaps :: SpacedAs(s, words, gaps)
  {
    if Words(s) == words { var gaps := SpacedOf(s); }
    if gaps :| SpacedAs(s, words, gaps) { WordsOfSpaced(s, words, gaps); }
  }

  lemma {:induction false} JoinChars(parts: seq<string>, sep: char, c: char)
    requires c != sep && forall w :: w in parts ==> c !in w
    ensures c !in Join(parts, sep)
  {
    if |parts| > 1 { JoinChars(parts[1..], sep, c); }
  }
}
