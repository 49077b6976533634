/** The strict one-hunk diff applier of the model benchmark, its meaning, and its inverse. */
module UnifiedDiff {
  import opened Decimal
  import opened Lines
  import opened Wrappers

  datatype Header = Header(oldStart: nat, oldCount: nat, newStart: nat, newCount: nat)

  // ---- the hunk header -------------------------------------------------------------------------------

  function DigitRun(s: string): (n: nat)
    ensures n <= |s| && AllDigits(s[..n])
  {
    if s != [] && IsDigit(s[0]) then 1 + DigitRun(s[1..]) else 0
  }

  datatype Range = Range(start: nat, count: nat, rest: string)

  /** `(\d+)(?:,(\d+))?`, a missing count being one. */
  function ParseRange(s: string): Option<Range> {
    var n := DigitRun(s);
    if n == 0 then None
    else
      var start, tail := NatOf(s[..n]), s[n..];
      if tail == [] || tail[0] != ',' then Some(Range(start, 1, tail))
      else
        var m := DigitRun(tail[1..]);
        if m == 0 then None else Some(Range(start, NatOf(tail[1..][..m]), tail[1..][m..]))
  }

  /** The header pattern, matched against the whole line. */
  function ParseHeader(line: string): Option<Header> {
    if !StartsWith(line, "@@ -") then None
    else
      var left := ParseRange(line[4..]);
      if left.None? || !StartsWith(left.value.rest, " +") then None
      else
        var right := ParseRange(left.value.rest[2..]);
        if right.None? || !StartsWith(right.value.rest, " @@") then None
        else
          var tail := right.value.rest[3..];
          if tail != [] && tail[0] != ' ' then None
          else Some(Header(left.value.start, left.value.count, right.value.start, right.value.count))
  }

  function RangeText(start: nat, count: nat): string { Digits(start) + "," + Digits(count) }

  function PrintHeader(h: Header): string {
    "@@ -" + RangeText(h.oldStart, h.oldCount) + " +" + RangeText(h.newStart, h.newCount) + " @@"
  }

  lemma {:induction false} DigitRunOf(digits: string, rest: string)
    requires AllDigits(digits) && (rest == [] || !IsDigit(rest[0]))
    ensures DigitRun(digits + rest) == |digits|
  {
    if digits == [] {
      assert digits + rest == rest;
    } else {
      DigitRunOf(digits[1..], rest);
      assert (digits + rest)[1..] == digits[1..] + rest;
    }
  }

  lemma RangeOfDigits(a: string, b: string, rest: string)
    requires a != [] && AllDigits(a) && b != [] && AllDigits(b) && (rest == [] || !IsDigit(rest[0]))
    ensures ParseRange(a + ("," + (b + rest))) == Some(Range(NatOf(a), NatOf(b), rest))
  {
    var tail := "," + (b + rest);
    DigitRunOf(a, tail);
    assert (a + tail)[..|a|] == a && (a + tail)[|a|..] == tail;
    assert tail[1..] == b + rest;
    DigitRunOf(b, rest);
    assert tail[1..][..|b|] == b && tail[1..][|b|..] == rest;
  }

  lemma RangeParses(start: nat, count: nat, rest: string)
    requires rest == [] || !IsDigit(rest[0])
    ensures ParseRange(RangeText(start, count) + rest) == Some(Range(start, count, rest))
  {
    var a, b := Digits(start), Digits(count);
    RangeOfDigits(a, b, rest);
    NatOfDigits(start);
    NatOfDigits(count);
    Regroup(a, ",", b, rest);
  }

  lemma Regroup(a: string, b: string, c: string, d: string)
    ensures a + b + c + d == a + (b + (c + d))
  {
  }

  lemma RegroupFive(a: string, b: string, c: string, d: string, e: string)
    ensures a + b + c + d + e == a + (b + (c + (d + e)))
  {
    Regroup(a, b, c, d + e);
    Regroup(a + b + c, d, e, []);
    assert a + b + c + d + e == a + b + c + (d + e);
  }

  lemma HeaderOfParts(line: string, l: Range, r: Range)
    requires StartsWith(line, "@@ -") && ParseRange(line[4..]) == Some(l)
    requires StartsWith(l.rest, " +") && ParseRange(l.rest[2..]) == Some(r)
    requires StartsWith(r.rest, " @@") && |r.rest| == 3
    ensures ParseHeader(line) == Some(Header(l.start, l.count, r.start, r.count))
  {
  }

  lemma HeaderOfRanges(left: string, right: string, l: Range, r: Range)
    requires ParseRange(left + (" +" + (right + " @@"))) == Some(l) && l.rest == " +" + (right + " @@")
    requires ParseRange(right + " @@") == Some(r) && r.rest == " @@"
    ensures ParseHeader("@@ -" + (left + (" +" + (right + " @@")))) == Some(Header(l.start, l.count, r.start, r.count))
  {
    var line := "@@ -" + (left + (" +" + (right + " @@")));
    assert line[..4] == "@@ -" && line[4..] == left + (" +" + (right + " @@"));
    assert l.rest[..2] == " +" && l.rest[2..] == right + " @@";
    HeaderOfParts(line, l, r);
  }

  /** A printed header is read back, so a hunk can be written for any numbers. */
  lemma HeaderParses(h: Header)
    ensures ParseHeader(PrintHeader(h)) == Some(h)
  {
    var left, right := RangeText(h.oldStart, h.oldCount), RangeText(h.newStart, h.newCount);
    var tail := " +" + (right + " @@");
    RangeParses(h.oldStart, h.oldCount, tail);
    RangeParses(h.newStart, h.newCount, " @@");
    HeaderOfRanges(left, right, Range(h.oldStart, h.oldCount, tail), Range(h.newStart, h.newCount, " @@"));
    RegroupFive("@@ -", left, " +", right, " @@");
  }

  // ---- the hunk body ---------------------------------------------------------------------------------

  const NO_NEWLINE: string := "\\ No newline at end of file"

  predicate IsHunkLine(line: string) { line == NO_NEWLINE || (line != "" && line[0] in {' ', '+', '-'}) }

  predicate OnOldSide(line: string) { line != NO_NEWLINE && line != "" && line[0] in {' ', '-'} }

  predicate OnNewSide(line: string) { line != NO_NEWLINE && line != "" && line[0] in {' ', '+'} }

  function OldSide(body: seq<string>): seq<string> {
    if body == [] then []
    else OldSide(body[..|body| - 1]) + (if OnOldSide(body[|body| - 1]) then [body[|body| - 1][1..]] else [])
  }

  function NewSide(body: seq<string>): seq<string> {
    if body == [] then []
    else NewSide(body[..|body| - 1]) + (if OnNewSide(body[|body| - 1]) then [body[|body| - 1][1..]] else [])
  }

  predicate WellFormedBody(body: seq<string>) { forall i :: 0 <= i < |body| ==> IsHunkLine(body[i]) }

  predicate IsHunkStart(line: string) { StartsWith(line, "@@") }

  /** The index of the only line that opens a hunk. */
  ghost predicate OnlyHunk(lines: seq<string>, h: nat) {
    h < |lines| && IsHunkStart(lines[h]) && forall i :: 0 <= i < |lines| && i != h ==> !IsHunkStart(lines[i])
  }

  /** What the body does to `base` from line `at` on. */
  ghost predicate BodyApplies(body: seq<string>, base: seq<string>, at: nat, oldCount: nat, newCount: nat,
                              result: seq<string>)
  {
    && WellFormedBody(body)
    && |OldSide(body)| == oldCount && |NewSide(body)| == newCount
    && at + oldCount <= |base|
    && base[at..at + oldCount] == OldSide(body)
    && result == base[..at] + NewSide(body) + base[at + oldCount..]
  }

  ghost predicate HunkApplies(parsed: Option<Header>, body: seq<string>, base: seq<string>, result: seq<string>) {
    && parsed.Some?
    && var header := parsed.value;
       && header.oldStart >= 1 && header.newStart == header.oldStart
       && BodyApplies(body, base, header.oldStart - 1, header.oldCount, header.newCount, result)
  }

  /** What it means for the hunk at line `h` to turn `base` into `result`. */
  ghost predicate Applies(lines: seq<string>, h: nat, base: seq<string>, result: seq<string>) {
    && OnlyHunk(lines, h)
    && HunkApplies(ParseHeader(lines[h]), lines[h + 1..], base, result)
  }

  /** The only hunk of the text and its header, which must keep the line it starts at. */
  ghost predicate Opens(lines: seq<string>, h: nat, header: Header) {
    && OnlyHunk(lines, h) && ParseHeader(lines[h]) == Some(header)
    && header.oldStart >= 1 && header.newStart == header.oldStart
  }

  lemma OnlyHunkOnce(lines: seq<string>, g: nat, h: nat)
    requires OnlyHunk(lines, g) && OnlyHunk(lines, h)
    ensures g == h
  {
  }

  lemma AppliesOpens(lines: seq<string>, g: nat, header: Header, h: nat, base: seq<string>, r: seq<string>)
    requires Opens(lines, g, header)
    ensures Applies(lines, h, base, r) <==>
            h == g && BodyApplies(lines[g + 1..], base, header.oldStart - 1, header.oldCount, header.newCount, r)
  {
    var parsed := ParseHeader(lines[g]);
    assert parsed == Some(header);
    if OnlyHunk(lines, h) { OnlyHunkOnce(lines, g, h); }
  }

  method FindHunk(lines: seq<string>) returns (r: Option<(nat, Header)>)
    ensures r.Some? ==> Opens(lines, r.value.0, r.value.1)
    ensures r.None? ==> forall h: nat, header :: !Opens(lines, h, header)
  {
    var hunks := HunkIndexes(lines);
    if |hunks| != 1 { return None; }
    var parsed := ParseHeader(lines[hunks[0]]);
    if parsed.None? { return None; }
    if parsed.value.oldStart < 1 || parsed.value.newStart != parsed.value.oldStart { return None; }
    r := Some((hunks[0], parsed.value));
  }

  lemma NeverApplies(lines: seq<string>, base: seq<string>)
    requires forall h: nat, header :: !Opens(lines, h, header)
    ensures forall h: nat, r :: !Applies(lines, h, base, r)
  {
    forall h: nat, r ensures !Applies(lines, h, base, r) {
      if Applies(lines, h, base, r) { assert Opens(lines, h, ParseHeader(lines[h]).value); }
    }
  }

  /** What the only hunk does is what its body does. */
  lemma WalkDecides(lines: seq<string>, h: nat, header: Header, base: seq<string>, r: Option<seq<string>>)
    requires Opens(lines, h, header)
    requires var at := header.oldStart - 1;
             && (forall result :: BodyApplies(lines[h + 1..], base, at, header.oldCount, header.newCount, result) ==>
                                    r == Some(result))
             && (r.Some? ==> BodyApplies(lines[h + 1..], base, at, header.oldCount, header.newCount, r.value))
    ensures forall g: nat, result :: Applies(lines, g, base, result) ==> r == Some(result)
    ensures r.Some? ==> exists g: nat :: Applies(lines, g, base, r.value)
  {
    forall g: nat, result | Applies(lines, g, base, result) ensures r == Some(result) {
      AppliesOpens(lines, h, header, g, base, result);
    }
    if r.Some? { AppliesOpens(lines, h, header, h, base, r.value); }
  }

  /** The cursor loop: copy the prefix, walk the body, copy the suffix.  It succeeds exactly when the
      hunk applies, and then with the result the hunk means. */
  method ApplyLines(lines: seq<string>, base: seq<string>) returns (r: Option<seq<string>>)
    ensures forall h: nat, result :: Applies(lines, h, base, result) ==> r == Some(result)
    ensures r.Some? ==> exists h: nat :: Applies(lines, h, base, r.value)
  {
    var hunk := FindHunk(lines);
    if hunk.None? {
      NeverApplies(lines, base);
      return None;
    }
    var (h, header) := hunk.value;
    r := None;
    if header.oldStart - 1 <= |base| {
      r := WalkBody(lines[h + 1..], base, header.oldStart - 1, header.oldCount, header.newCount);
    }
    WalkDecides(lines, h, header, base, r);
  }

  method HunkIndexes(lines: seq<string>) returns (indexes: seq<nat>)
    ensures forall i :: 0 <= i < |indexes| ==> indexes[i] < |lines| && IsHunkStart(lines[indexes[i]])
    ensures forall h :: 0 <= h < |lines| && IsHunkStart(lines[h]) ==> h in indexes
    ensures forall i, j :: 0 <= i < j < |indexes| ==> indexes[i] < indexes[j]
    ensures |indexes| != 1 ==> forall h: nat :: !OnlyHunk(lines, h)
    ensures |indexes| == 1 ==> OnlyHunk(lines, indexes[0])
  {
    indexes := [];
    for n := 0 to |lines|
      invariant forall i :: 0 <= i < |indexes| ==> indexes[i] < n && IsHunkStart(lines[indexes[i]])
      invariant forall h :: 0 <= h < n && IsHunkStart(lines[h]) ==> h in indexes
      invariant forall i, j :: 0 <= i < j < |indexes| ==> indexes[i] < indexes[j]
    {
      if IsHunkStart(lines[n]) { indexes := indexes + [n]; }
    }
    if |indexes| >= 2 {
      assert indexes[0] != indexes[1];
    }
  }

  method WalkBody(body: seq<string>, base: seq<string>, at: nat, oldCount: nat, newCount: nat)
    returns (r: Option<seq<string>>)
    requires at <= |base|
    ensures forall result :: BodyApplies(body, base, at, oldCount, newCount, result) ==> r == Some(result)
    ensures r.Some? ==> BodyApplies(body, base, at, oldCount, newCount, r.value)
  {
    var cursor, oldSeen, newSeen := at, 0, 0;
    var result := base[..at];
    for n := 0 to |body|
      invariant WellFormedBody(body[..n])
      invariant oldSeen == |OldSide(body[..n])| && newSeen == |NewSide(body[..n])|
      invariant cursor == at + oldSeen <= |base|
      invariant base[at..cursor] == OldSide(body[..n])
      invariant result == base[..at] + NewSide(body[..n])
    {
      var line := body[n];
      assert body[..n + 1][..n] == body[..n] && body[..n + 1][n] == line;
      if line != NO_NEWLINE {
        if line == "" || line[0] !in {' ', '+', '-'} {
          assert !IsHunkLine(body[n]);
          return None;
        }
        var value := line[1..];
        if line[0] in {' ', '-'} {
          if cursor >= |base| || base[cursor] != value {
            OldSideFails(body, n, base, at);
            return None;
          }
          cursor, oldSeen := cursor + 1, oldSeen + 1;
        }
        if line[0] in {' ', '+'} {
          result, newSeen := result + [value], newSeen + 1;
        }
      }
    }
    assert body[..|body|] == body;
    if oldSeen != oldCount || newSeen != newCount { return None; }
    r := Some(result + base[cursor..]);
  }

  /** A mismatch at one line of the old side cannot be mended by later lines. */
  lemma OldSideFails(body: seq<string>, n: nat, base: seq<string>, at: nat)
    requires n < |body| && OnOldSide(body[n]) && at + |OldSide(body[..n])| <= |base|
    requires var c := at + |OldSide(body[..n])|; c >= |base| || base[c] != body[n][1..]
    ensures at + |OldSide(body)| <= |base| ==> base[at..at + |OldSide(body)|] != OldSide(body)
  {
    OldSidePrefix(body, n + 1);
    assert body[..n + 1][..n] == body[..n];
    var c := |OldSide(body[..n])|;
    assert OldSide(body[..n + 1])[c] == body[n][1..];
    if at + |OldSide(body)| <= |base| {
      assert OldSide(body)[c] == body[n][1..];
      assert base[at..at + |OldSide(body)|][c] == base[at + c];
    }
  }

  lemma {:induction false} OldSidePrefix(body: seq<string>, n: nat)
    requires n <= |body|
    ensures OldSide(body[..n]) <= OldSide(body)
    decreases |body|
  {
    if n < |body| {
      OldSidePrefix(body[..|body| - 1], n);
      assert body[..|body| - 1][..n] == body[..n];
    } else {
      assert body[..n] == body;
    }
  }

  /** A hunk has one meaning at most. */
  lemma AppliesUnique(lines: seq<string>, g: nat, h: nat, base: seq<string>, r: seq<string>, s: seq<string>)
    requires Applies(lines, g, base, r) && Applies(lines, h, base, s)
    ensures g == h && r == s
  {
    var header := ParseHeader(lines[g]).value;
    AppliesOpens(lines, g, header, g, base, r);
    AppliesOpens(lines, g, header, h, base, s);
  }

  lemma ThreeParts<T>(a: seq<T>, b: seq<T>, c: seq<T>)
    ensures var s := a + b + c; s[..|a|] == a && s[|a|..|a| + |b|] == b && s[|a| + |b|..] == c
  {
  }

  /** Where the lines of the result come from, and how many there are. */
  lemma ResultShape(lines: seq<string>, h: nat, base: seq<string>, r: seq<string>)
    requires Applies(lines, h, base, r)
    ensures var header := ParseHeader(lines[h]).value; var at := header.oldStart - 1;
            && at + header.oldCount <= |base| && at + header.newCount <= |r|
            && |r| == |base| - header.oldCount + header.newCount
            && r[..at] == base[..at] && r[at..at + header.newCount] == NewSide(lines[h + 1..])
            && r[at + header.newCount..] == base[at + header.oldCount..]
  {
    var header := ParseHeader(lines[h]).value;
    var at := header.oldStart - 1;
    ThreeParts(base[..at], NewSide(lines[h + 1..]), base[at + header.oldCount..]);
  }

  // ---- the inverse hunk ------------------------------------------------------------------------------

  function Flip(line: string): string {
    if line == "" then line
    else if line[0] == '+' then "-" + line[1..]
    else if line[0] == '-' then "+" + line[1..]
    else line
  }

  function FlipAll(body: seq<string>): (r: seq<string>)
    ensures |r| == |body| && forall i :: 0 <= i < |body| ==> r[i] == Flip(body[i])
  {
    seq(|body|, i requires 0 <= i < |body| => Flip(body[i]))
  }

  function ReverseAt(lines: seq<string>, h: nat): seq<string>
    requires h < |lines| && ParseHeader(lines[h]).Some?
  {
    var header := ParseHeader(lines[h]).value;
    lines[..h]
    + [PrintHeader(FlipHeader(header))]
    + FlipAll(lines[h + 1..])
  }

  lemma FlipLine(line: string)
    ensures OnOldSide(Flip(line)) <==> OnNewSide(line)
    ensures OnNewSide(Flip(line)) <==> OnOldSide(line)
    ensures line != "" ==> Flip(line) != "" && Flip(line)[1..] == line[1..]
  {
    if line != "" && line[0] in {'+', '-'} { assert Flip(line)[1..] == line[1..]; }
  }

  lemma {:induction false} FlipSides(body: seq<string>)
    ensures OldSide(FlipAll(body)) == NewSide(body) && NewSide(FlipAll(body)) == OldSide(body)
  {
    if body != [] {
      var n := |body| - 1;
      FlipSides(body[..n]);
      assert FlipAll(body)[..n] == FlipAll(body[..n]);
      FlipLine(body[n]);
    }
  }

  lemma FlipBody(body: seq<string>, base: seq<string>, at: nat, oldCount: nat, newCount: nat, r: seq<string>)
    requires BodyApplies(body, base, at, oldCount, newCount, r)
    ensures BodyApplies(FlipAll(body), r, at, newCount, oldCount, base)
  {
    FlipSides(body);
    FlipWellFormed(body);
    MiddleBack(base, at, oldCount, NewSide(body), r);
  }

  /** Putting the old middle back. */
  lemma MiddleBack<T>(base: seq<T>, at: nat, oldCount: nat, middle: seq<T>, r: seq<T>)
    requires at + oldCount <= |base| && r == base[..at] + middle + base[at + oldCount..]
    ensures at + |middle| <= |r| && r[at..at + |middle|] == middle
    ensures base == r[..at] + base[at..at + oldCount] + r[at + |middle|..]
  {
    ThreeParts(base[..at], middle, base[at + oldCount..]);
    assert base == base[..at] + base[at..at + oldCount] + base[at + oldCount..];
  }

  lemma FlipWellFormed(body: seq<string>)
    requires WellFormedBody(body)
    ensures WellFormedBody(FlipAll(body))
  {
    forall i | 0 <= i < |body| ensures IsHunkLine(FlipAll(body)[i]) { assert IsHunkLine(body[i]); }
  }

  function FlipHeader(h: Header): Header { Header(h.newStart, h.newCount, h.oldStart, h.oldCount) }

  lemma FlipStart(line: string)
    requires !IsHunkStart(line)
    ensures !IsHunkStart(Flip(line))
  {
    if line != "" && line[0] in {'+', '-'} {
      assert Flip(line)[0] != '@';
    }
  }

  lemma ReverseOnlyHunk(lines: seq<string>, h: nat)
    requires OnlyHunk(lines, h) && ParseHeader(lines[h]).Some?
    ensures OnlyHunk(ReverseAt(lines, h), h)
    ensures ReverseAt(lines, h)[h] == PrintHeader(FlipHeader(ParseHeader(lines[h]).value))
    ensures ReverseAt(lines, h)[h + 1..] == FlipAll(lines[h + 1..])
  {
    var back := ReverseAt(lines, h);
    HeaderOpens(FlipHeader(ParseHeader(lines[h]).value));
    forall i | 0 <= i < |back| && i != h ensures !IsHunkStart(back[i]) {
      if i < h {
        assert back[i] == lines[i];
      } else {
        assert lines[h + 1..][i - h - 1] == lines[i];
        FlipStart(lines[i]);
      }
    }
  }

  /** On lines the sign-swapped hunk takes the result back to the base. */
  lemma ReverseUndoes(lines: seq<string>, h: nat, base: seq<string>, r: seq<string>)
    requires Applies(lines, h, base, r)
    ensures Applies(ReverseAt(lines, h), h, r, base)
  {
    var header := ParseHeader(lines[h]).value;
    ReverseOnlyHunk(lines, h);
    HeaderParses(FlipHeader(header));
    FlipBody(lines[h + 1..], base, header.oldStart - 1, header.oldCount, header.newCount, r);
  }

  lemma HeaderOpens(h: Header)
    ensures IsHunkStart(PrintHeader(h))
  {
    RegroupFive("@@ -", RangeText(h.oldStart, h.oldCount), " +", RangeText(h.newStart, h.newCount), " @@");
    assert PrintHeader(h)[..2] == "@@";
  }

  // ---- on texts --------------------------------------------------------------------------------------

  ghost predicate TextApplies(patch: string, base: string, text: string) {
    exists h: nat, r :: Applies(SplitLines(patch), h, SplitLines(base), r) && text == Join(r) + Suffix(base)
  }

  /** `apply_unified_diff`. */
  method ApplyUnifiedDiff(patch: string, base: string) returns (r: Option<string>)
    ensures forall text :: TextApplies(patch, base, text) <==> r == Some(text)
  {
    var lines := ApplyLines(SplitLines(patch), SplitLines(base));
    if lines.None? { return None; }
    var suffix := if EndsWithNewline(base) then "\n" else "";
    r := Some(Join(lines.value) + suffix);
  }

  /** The result text splits back into the result lines. */
  predicate Resplits(r: seq<string>, base: string) {
    if EndsWithNewline(base) then r != [] else r == [] || r[|r| - 1] != ""
  }

  lemma ResplitsExactly(r: seq<string>, base: string)
    requires AllUnbroken(r)
    ensures SplitLines(Join(r) + Suffix(base)) == r <==> Resplits(r, base)
    ensures Resplits(r, base) ==> Suffix(Join(r) + Suffix(base)) == Suffix(base)
  {
    if EndsWithNewline(base) {
      if r == [] {
        assert "\n"[..0] == "";
        SplitFirst("", "");
        assert "" + ("\n" + "") == "\n";
      } else {
        SplitJoinNewline(r);
      }
    } else {
      assert Join(r) + "" == Join(r);
      SplitJoin(r);
      if Resplits(r, base) { JoinEnds(r); }
    }
  }

  lemma {:induction false} JoinEnds(r: seq<string>)
    requires AllUnbroken(r)
    requires r != [] ==> r[|r| - 1] != ""
    ensures !EndsWithNewline(Join(r))
    ensures r != [] ==> Join(r) != ""
  {
    if |r| == 1 {
      assert !IsBreak(r[0][|r[0]| - 1]);
    } else if |r| >= 2 {
      JoinFirst(r);
      assert r[1..][|r| - 2] == r[|r| - 1];
      JoinEnds(r[1..]);
    }
  }

  lemma {:induction false} SideUnbroken(body: seq<string>)
    requires AllUnbroken(body)
    ensures AllUnbroken(NewSide(body))
  {
    if body != [] {
      var n := |body| - 1;
      assert forall i :: 0 <= i < n ==> body[..n][i] == body[i];
      SideUnbroken(body[..n]);
      if OnNewSide(body[n]) {
        assert forall i :: 0 <= i < |body[n]| - 1 ==> body[n][1..][i] == body[n][i + 1];
      }
    }
  }

  lemma UnbrokenPlus(a: seq<string>, b: seq<string>)
    requires AllUnbroken(a) && AllUnbroken(b)
    ensures AllUnbroken(a + b)
  {
  }

  lemma UnbrokenSlice(lines: seq<string>, i: nat, j: nat)
    requires i <= j <= |lines| && AllUnbroken(lines)
    ensures AllUnbroken(lines[i..j]) && AllUnbroken(lines[i..]) && AllUnbroken(lines[..j])
  {
  }

  lemma ResultUnbroken(lines: seq<string>, h: nat, base: seq<string>, r: seq<string>)
    requires Applies(lines, h, base, r) && AllUnbroken(lines) && AllUnbroken(base)
    ensures AllUnbroken(r)
  {
    var body, header := lines[h + 1..], ParseHeader(lines[h]).value;
    var at := header.oldStart - 1;
    UnbrokenSlice(lines, h + 1, |lines|);
    SideUnbroken(body);
    UnbrokenSlice(base, 0, at);
    UnbrokenSlice(base, at + header.oldCount, |base|);
    UnbrokenPlus(base[..at], NewSide(body));
    UnbrokenPlus(base[..at] + NewSide(body), base[at + header.oldCount..]);
  }

  lemma HeaderUnbroken(h: Header)
    ensures Unbroken(PrintHeader(h))
  {
  }

  /** The reversed hunk as a text: its lines, joined. */
  function ReverseText(patch: string, h: nat): string
    requires h < |SplitLines(patch)| && ParseHeader(SplitLines(patch)[h]).Some?
  {
    Join(ReverseAt(SplitLines(patch), h))
  }

  lemma FlipUnbroken(line: string)
    requires Unbroken(line)
    ensures Unbroken(Flip(line))
  {
    if line != "" {
      assert forall i :: 0 <= i < |line| - 1 ==> line[1..][i] == line[i + 1];
    }
  }

  lemma ReverseUnbroken(lines: seq<string>, h: nat)
    requires h < |lines| && ParseHeader(lines[h]).Some? && AllUnbroken(lines)
    ensures AllUnbroken(ReverseAt(lines, h))
  {
    var header := [PrintHeader(FlipHeader(ParseHeader(lines[h]).value))];
    HeaderUnbroken(FlipHeader(ParseHeader(lines[h]).value));
    UnbrokenSlice(lines, h + 1, |lines|);
    FlipAllUnbroken(lines[h + 1..]);
    UnbrokenPlus(lines[..h], header);
    UnbrokenPlus(lines[..h] + header, FlipAll(lines[h + 1..]));
  }

  lemma FlipAllUnbroken(body: seq<string>)
    requires AllUnbroken(body)
    ensures AllUnbroken(FlipAll(body))
  {
    forall i | 0 <= i < |body| ensures Unbroken(FlipAll(body)[i]) { FlipUnbroken(body[i]); }
  }

  lemma FlipNotEmpty(body: seq<string>)
    requires body != [] && WellFormedBody(body)
    ensures FlipAll(body)[|body| - 1] != ""
  {
    assert IsHunkLine(body[|body| - 1]);
  }

  lemma LastOf(front: seq<string>, middle: string, tail: seq<string>)
    ensures var all := front + [middle] + tail;
            all != [] && all[|all| - 1] == if tail == [] then middle else tail[|tail| - 1]
  {
  }

  lemma HeaderNotEmpty(h: Header)
    ensures PrintHeader(h) != ""
  {
    HeaderOpens(h);
  }

  lemma LastNotEmpty(front: seq<string>, header: Header, body: seq<string>)
    requires WellFormedBody(body)
    ensures var all := front + [PrintHeader(header)] + FlipAll(body); all != [] && all[|all| - 1] != ""
  {
    HeaderNotEmpty(header);
    LastOf(front, PrintHeader(header), FlipAll(body));
    if body != [] { FlipNotEmpty(body); }
  }

  lemma ReverseLastLine(lines: seq<string>, h: nat)
    requires h < |lines| && ParseHeader(lines[h]).Some? && WellFormedBody(lines[h + 1..])
    ensures var back := ReverseAt(lines, h); back != [] && back[|back| - 1] != ""
  {
    LastNotEmpty(lines[..h], FlipHeader(ParseHeader(lines[h]).value), lines[h + 1..]);
  }

  lemma ReverseTextSplits(patch: string, h: nat)
    requires h < |SplitLines(patch)| && ParseHeader(SplitLines(patch)[h]).Some?
    requires WellFormedBody(SplitLines(patch)[h + 1..])
    ensures SplitLines(ReverseText(patch, h)) == ReverseAt(SplitLines(patch), h)
  {
    SplitUnbroken(patch);
    ReverseUnbroken(SplitLines(patch), h);
    ReverseLastLine(SplitLines(patch), h);
    SplitJoin(ReverseAt(SplitLines(patch), h));
  }

  lemma TooManyLines(base: string, r2: seq<string>)
    requires AllUnbroken(r2) && |r2| > |SplitLines(base)|
    ensures base != Join(r2) + "\n"
  {
    SplitJoinNewline(r2);
  }

  lemma TooFewLines(base: string, r2: seq<string>)
    requires AllUnbroken(r2) && |r2| < |SplitLines(base)|
    ensures base != Join(r2)
  {
    SplitJoin(r2);
  }

  lemma LoneNewline()
    ensures SplitLines("\n") == [""] && Suffix("\n") == "\n"
  {
    assert "" + ("\n" + "") == "\n";
    SplitFirst("", "");
  }

  lemma AllLinesLost(base: string, r2: seq<string>)
    requires AllUnbroken(r2) && |r2| - |SplitLines(base)| == |SplitLines("\n")|
    ensures base != Join(r2) + Suffix("\n")
  {
    LoneNewline();
    TooManyLines(base, r2);
  }

  lemma LastLineLost(base: string, r: seq<string>, r2: seq<string>)
    requires AllUnbroken(r) && AllUnbroken(r2) && !EndsWithNewline(base) && r != [] && r[|r| - 1] == ""
    requires |r2| - |SplitLines(base)| == |SplitLines(Join(r))| - |r|
    ensures base != Join(r2) + Suffix(Join(r))
  {
    SplitJoin(r);
    TooFewLines(base, r2);
    if EndsWithNewline(Join(r)) {
      assert EndsWithNewline(Join(r2) + "\n");
    } else {
      assert Join(r2) + "" == Join(r2);
    }
  }

  lemma LostLineShows(base: string, text: string, r: seq<string>, r2: seq<string>)
    requires AllUnbroken(r) && AllUnbroken(r2) && text == Join(r) + Suffix(base) && !Resplits(r, base)
    requires |r2| - |SplitLines(base)| == |SplitLines(text)| - |r|
    ensures base != Join(r2) + Suffix(text)
  {
    if EndsWithNewline(base) {
      assert text == "\n";
      AllLinesLost(base, r2);
    } else {
      assert text == Join(r);
      LastLineLost(base, r, r2);
    }
  }

  /** What the lines of the base and the hunk say about the end of the result: a text with a final newline keeps a
      line; a text without one ends in a line that is not empty, taken from what follows the hunk, else from the
      new side, else from what precedes the hunk. */
  predicate EndKept(lines: seq<string>, newline: bool, at: nat, oldCount: nat, added: seq<string>) {
    if newline then at > 0 || at + oldCount < |lines| || added != []
    else if at + oldCount < |lines| then lines[|lines| - 1] != ""
    else if added != [] then added[|added| - 1] != ""
    else at == 0 || at > |lines| || lines[at - 1] != ""
  }

  lemma EndOfResult(lines: seq<string>, at: nat, after: nat, added: seq<string>, r: seq<string>)
    requires at <= after <= |lines| && r == lines[..at] + added + lines[after..]
    ensures r == [] <==> at == 0 && added == [] && after == |lines|
    ensures r != [] ==>
              r[|r| - 1] == if after < |lines| then lines[|lines| - 1]
                            else if added != [] then added[|added| - 1]
                            else lines[at - 1]
  {
  }

  lemma EndKeptMeans(base: string, header: Header, body: seq<string>, r: seq<string>)
    requires header.oldStart >= 1
    requires BodyApplies(body, SplitLines(base), header.oldStart - 1, header.oldCount, header.newCount, r)
    ensures Resplits(r, base) <==>
            EndKept(SplitLines(base), EndsWithNewline(base), header.oldStart - 1, header.oldCount, NewSide(body))
  {
    EndKeptOf(SplitLines(base), base, header.oldStart - 1, header.oldCount, NewSide(body), r);
  }

  lemma EndKeptOf(lines: seq<string>, base: string, at: nat, oldCount: nat, added: seq<string>, r: seq<string>)
    requires at + oldCount <= |lines| && r == lines[..at] + added + lines[at + oldCount..]
    ensures Resplits(r, base) <==> EndKept(lines, EndsWithNewline(base), at, oldCount, added)
  {
    EndOfResult(lines, at, at + oldCount, added, r);
  }

  /** On texts the inverse is exact if and only if the base breaks its lines with line feeds only and the end of
      the result is kept, as the patch and the base show beforehand. */
  lemma TextRoundTripExactly(patch: string, base: string, h: nat, header: Header, r: seq<string>)
    requires Opens(SplitLines(patch), h, header) && Applies(SplitLines(patch), h, SplitLines(base), r)
    ensures var text, added := Join(r) + Suffix(base), NewSide(SplitLines(patch)[h + 1..]);
            TextApplies(ReverseText(patch, h), text, base) <==>
            && OnlyLineFeeds(base)
            && EndKept(SplitLines(base), EndsWithNewline(base), header.oldStart - 1, header.oldCount, added)
  {
    AppliesOpens(SplitLines(patch), h, header, h, SplitLines(base), r);
    EndKeptMeans(base, header, SplitLines(patch)[h + 1..], r);
    ReversesIfResplits(patch, base, h, r);
  }

  lemma ReversesIfResplits(patch: string, base: string, h: nat, r: seq<string>)
    requires Applies(SplitLines(patch), h, SplitLines(base), r)
    ensures var text := Join(r) + Suffix(base);
            TextApplies(ReverseText(patch, h), text, base) <==> OnlyLineFeeds(base) && Resplits(r, base)
  {
    var lines, text := SplitLines(patch), Join(r) + Suffix(base);
    SplitUnbroken(patch);
    SplitUnbroken(base);
    ResultUnbroken(lines, h, SplitLines(base), r);
    ReverseTextSplits(patch, h);
    ResplitsExactly(r, base);
    if OnlyLineFeeds(base) && Resplits(r, base) {
      ReverseUndoes(lines, h, SplitLines(base), r);
      JoinSplit(base);
    }
    if TextApplies(ReverseText(patch, h), text, base) {
      var h2: nat, r2 :| Applies(ReverseAt(lines, h), h2, SplitLines(text), r2) && base == Join(r2) + Suffix(text);
      BackwardsOnlyIf(patch, base, h, r, h2, r2);
    }
  }

  lemma BackwardsOnlyIf(patch: string, base: string, h: nat, r: seq<string>, h2: nat, r2: seq<string>)
    requires Applies(SplitLines(patch), h, SplitLines(base), r) && AllUnbroken(r)
    requires var text := Join(r) + Suffix(base);
             Applies(ReverseAt(SplitLines(patch), h), h2, SplitLines(text), r2) && base == Join(r2) + Suffix(text)
    requires SplitLines(ReverseText(patch, h)) == ReverseAt(SplitLines(patch), h)
    ensures OnlyLineFeeds(base) && Resplits(r, base)
  {
    var lines, text := SplitLines(patch), Join(r) + Suffix(base);
    SplitUnbroken(ReverseText(patch, h));
    SplitUnbroken(text);
    ResultUnbroken(ReverseAt(lines, h), h2, SplitLines(text), r2);
    JoinOnlyLineFeeds(r2);
    assert Join(r2) + "" == Join(r2);
    ThereAndBack(lines, h, SplitLines(base), r, h2, SplitLines(text), r2);
    if !Resplits(r, base) { LostLineShows(base, text, r, r2); }
  }

  /** The way back takes away as many lines as the way there adds. */
  lemma ThereAndBack(lines: seq<string>, h: nat, base: seq<string>, r: seq<string>, h2: nat, base2: seq<string>,
                     r2: seq<string>)
    requires Applies(lines, h, base, r) && Applies(ReverseAt(lines, h), h2, base2, r2)
    ensures |r2| - |base| == |base2| - |r|
  {
    ReverseOnlyHunk(lines, h);
    OnlyHunkOnce(ReverseAt(lines, h), h, h2);
    HeaderParses(FlipHeader(ParseHeader(lines[h]).value));
    ResultShape(lines, h, base, r);
    ResultShape(ReverseAt(lines, h), h, base2, r2);
  }

  // ---- a patch that is not undone ------------------------------------------------------------------------

  lemma NotHunkStart(line: string)
    requires line != "" && line[0] != '@'
    ensures !IsHunkStart(line)
  {
    if |line| >= 2 { assert line[..2][0] == line[0]; }
  }

  lemma TwoLinesOpen(h: Header, line: string, lines: seq<string>)
    requires lines == [PrintHeader(h), line] && !IsHunkStart(line) && h.oldStart >= 1 && h.newStart == h.oldStart
    ensures Opens(lines, 0, h)
  {
    HeaderOpens(h);
    HeaderParses(h);
  }

  lemma DeletesLine(body: seq<string>)
    requires body == ["-a"]
    ensures BodyApplies(body, ["a"], 0, 1, 0, [])
  {
    var front: seq<string> := [];
    assert body[..0] == front && body[0][1..] == "a" && body[0][0] == '-';
    assert body[0] != NO_NEWLINE by { assert NO_NEWLINE[0] == '\\'; }
    assert OldSide(front) == [] && NewSide(front) == [];
    assert OldSide(body) == ["a"] && NewSide(body) == [];
  }

  /** A hunk that deletes every line of a text with a final newline leaves a lone newline, and its reverse does not
      bring the text back. */
  lemma EmptiedTextIsLost(patch: string, base: string, h: nat, header: Header)
    requires Opens(SplitLines(patch), h, header) && EndsWithNewline(base)
    requires Applies(SplitLines(patch), h, SplitLines(base), [])
    ensures TextApplies(patch, base, "\n") && !TextApplies(ReverseText(patch, h), "\n", base)
  {
    assert Join([]) + Suffix(base) == "\n";
    ReversesIfResplits(patch, base, h, []);
  }

  /** The patch of two lines, `@@ -1,1 +1,0 @@` and `-a`. */
  function DeletePatch(): string { Join([PrintHeader(Header(1, 1, 1, 0)), "-a"]) }

  lemma DeletePatchOpens()
    ensures Opens(SplitLines(DeletePatch()), 0, Header(1, 1, 1, 0)) && SplitLines(DeletePatch())[1..] == ["-a"]
  {
    var header := Header(1, 1, 1, 0);
    var lines := [PrintHeader(header), "-a"];
    HeaderUnbroken(header);
    SplitJoin(lines);
    NotHunkStart("-a");
    TwoLinesOpen(header, "-a", lines);
  }

  lemma OneLine()
    ensures SplitLines("a\n") == ["a"]
  {
    SplitFirst("a", "");
    assert "a" + ("\n" + "") == "a\n";
  }

  lemma LineIsLost(patch: string, header: Header)
    requires header == Header(1, 1, 1, 0) && Opens(SplitLines(patch), 0, header) && SplitLines(patch)[1..] == ["-a"]
    ensures TextApplies(patch, "a\n", "\n") && !TextApplies(ReverseText(patch, 0), "\n", "a\n")
  {
    OneLine();
    DeletesLine(SplitLines(patch)[1..]);
    AppliesOpens(SplitLines(patch), 0, header, 0, ["a"], []);
    EmptiedTextIsLost(patch, "a\n", 0, header);
  }

  /** It takes the only line of a text away for good. */
  lemma DeletedLineStaysDeleted()
    ensures Opens(SplitLines(DeletePatch()), 0, Header(1, 1, 1, 0)) && TextApplies(DeletePatch(), "a\n", "\n")
    ensures !TextApplies(ReverseText(DeletePatch(), 0), "\n", "a\n")
  {
    DeletePatchOpens();
    LineIsLost(DeletePatch(), Header(1, 1, 1, 0));
  }
}
