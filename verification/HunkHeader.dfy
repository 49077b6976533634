/** Every spelling of a hunk header, and a patch as it is printed for one changed line. */
module HunkHeader {
  import opened Decimal
  import opened Lines
  import opened UnifiedDiff
  import opened Wrappers

  ghost predicate Numeral(s: string, n: nat) { s != "" && AllDigits(s) && NatOf(s) == n }

  /** A start and a count with a comma between, or a start alone for a count of one. */
  ghost predicate Spells(text: string, start: nat, count: nat) {
    || (Numeral(text, start) && count == 1)
    || exists i :: 0 <= i < |text| && text[i] == ',' && Numeral(text[..i], start) && Numeral(text[i + 1..], count)
  }

  /** What may follow the header. */
  predicate Tail(s: string) { s == "" || s[0] == ' ' }

  lemma BareRange(text: string, start: nat, rest: string)
    requires Numeral(text, start) && rest != "" && rest[0] == ' '
    ensures ParseRange(text + rest) == Some(Range(start, 1, rest))
  {
    DigitRunOf(text, rest);
    assert (text + rest)[..|text|] == text && (text + rest)[|text|..] == rest;
  }

  lemma CommaRange(a: string, b: string, start: nat, count: nat, rest: string)
    requires Numeral(a, start) && Numeral(b, count) && rest != "" && rest[0] == ' '
    ensures ParseRange(a + "," + b + rest) == Some(Range(start, count, rest))
  {
    RangeOfDigits(a, b, rest);
    UnifiedDiff.Regroup(a, ",", b, rest);
  }

  lemma CutAt(text: string, i: nat)
    requires i < |text| && text[i] == ','
    ensures text == text[..i] + "," + text[i + 1..]
  {
  }

  lemma SpelledRange(text: string, start: nat, count: nat, rest: string)
    requires Spells(text, start, count) && rest != "" && rest[0] == ' '
    ensures ParseRange(text + rest) == Some(Range(start, count, rest))
  {
    if Numeral(text, start) && count == 1 {
      BareRange(text, start, rest);
    } else {
      var i :| 0 <= i < |text| && text[i] == ',' && Numeral(text[..i], start) && Numeral(text[i + 1..], count);
      CutAt(text, i);
      CommaRange(text[..i], text[i + 1..], start, count, rest);
    }
  }

  lemma CommaSpells(a: string, b: string, start: nat, count: nat)
    requires Numeral(a, start) && Numeral(b, count)
    ensures Spells(a + ("," + b), start, count)
  {
    var text := a + ("," + b);
    assert text[..|a|] == a && text[|a|] == ',' && text[|a| + 1..] == b;
  }

  lemma Recut(s: string, n: nat, m: nat)
    requires n < |s| && s[n] == ',' && m <= |s[n..][1..]|
    ensures s == (s[..n] + ("," + s[n..][1..][..m])) + s[n..][1..][m..]
  {
    assert s[n..] == "," + s[n..][1..];
    assert s[n..][1..] == s[n..][1..][..m] + s[n..][1..][m..];
    assert s == s[..n] + s[n..];
  }

  /** The part of `s` that was read as a range. */
  lemma RangeIsSpelled(s: string) returns (text: string)
    requires ParseRange(s).Some?
    ensures var r := ParseRange(s).value; s == text + r.rest && Spells(text, r.start, r.count)
  {
    var n := DigitRun(s);
    var tail := s[n..];
    if tail == [] || tail[0] != ',' {
      text := s[..n];
    } else {
      var m := DigitRun(tail[1..]);
      text := s[..n] + ("," + tail[1..][..m]);
      CommaSpells(s[..n], tail[1..][..m], NatOf(s[..n]), NatOf(tail[1..][..m]));
      Recut(s, n, m);
    }
  }

  ghost predicate SpelledHeader(line: string, l: string, r: string, tail: string, h: Header) {
    && Spells(l, h.oldStart, h.oldCount) && Spells(r, h.newStart, h.newCount) && Tail(tail)
    && line == "@@ -" + (l + (" +" + (r + (" @@" + tail))))
  }

  lemma AfterRanges(line: string, left: Range, right: Range, tail: string)
    requires StartsWith(line, "@@ -") && ParseRange(line[4..]) == Some(left)
    requires StartsWith(left.rest, " +") && ParseRange(left.rest[2..]) == Some(right)
    requires right.rest == " @@" + tail
    ensures ParseHeader(line).Some? <==> Tail(tail)
    ensures Tail(tail) ==> ParseHeader(line).value == Header(left.start, left.count, right.start, right.count)
  {
    assert right.rest[..3] == " @@" && right.rest[3..] == tail;
  }

  lemma SpelledParses(line: string, l: string, r: string, tail: string, h: Header)
    requires SpelledHeader(line, l, r, tail, h)
    ensures ParseHeader(line) == Some(h)
  {
    var end := " @@" + tail;
    var middle := " +" + (r + end);
    SpelledRange(r, h.newStart, h.newCount, end);
    SpelledRange(l, h.oldStart, h.oldCount, middle);
    assert line[..4] == "@@ -" && line[4..] == l + middle;
    assert middle[..2] == " +" && middle[2..] == r + end;
    AfterRanges(line, Range(h.oldStart, h.oldCount, middle), Range(h.newStart, h.newCount, end), tail);
  }

  lemma HeaderParts(line: string, h: Header) returns (left: Range, right: Range, tail: string)
    requires ParseHeader(line) == Some(h)
    ensures StartsWith(line, "@@ -") && ParseRange(line[4..]) == Some(left)
    ensures StartsWith(left.rest, " +") && ParseRange(left.rest[2..]) == Some(right)
    ensures StartsWith(right.rest, " @@") && tail == right.rest[3..] && Tail(tail)
    ensures h == Header(left.start, left.count, right.start, right.count)
  {
    left := ParseRange(line[4..]).value;
    right := ParseRange(left.rest[2..]).value;
    tail := right.rest[3..];
  }

  lemma Cut(s: string, p: string)
    requires StartsWith(s, p)
    ensures s == p + s[|p|..]
  {
  }

  lemma ParsedIsSpelled(line: string, h: Header) returns (l: string, r: string, tail: string)
    requires ParseHeader(line) == Some(h)
    ensures SpelledHeader(line, l, r, tail, h)
  {
    var left, right;
    left, right, tail := HeaderParts(line, h);
    l := RangeIsSpelled(line[4..]);
    r := RangeIsSpelled(left.rest[2..]);
    Cut(line, "@@ -");
    Cut(left.rest, " +");
    Cut(right.rest, " @@");
  }

  /** A line is read as a header exactly when it spells one: each count printed, or left out where it is one, and
      behind the second `@@` nothing or a space and anything. */
  lemma HeaderExactly(line: string, h: Header)
    ensures ParseHeader(line) == Some(h) <==> exists l, r, tail :: SpelledHeader(line, l, r, tail, h)
  {
    if ParseHeader(line) == Some(h) {
      var l, r, tail := ParsedIsSpelled(line, h);
    }
    if l, r, tail :| SpelledHeader(line, l, r, tail, h) { SpelledParses(line, l, r, tail, h); }
  }

  /** A header with both counts left out. */
  lemma BareHeader(start: nat, end: nat, tail: string)
    requires Tail(tail)
    ensures ParseHeader("@@ -" + (Digits(start) + (" +" + (Digits(end) + (" @@" + tail))))) ==
            Some(Header(start, 1, end, 1))
  {
    NatOfDigits(start);
    NatOfDigits(end);
    var line := "@@ -" + (Digits(start) + (" +" + (Digits(end) + (" @@" + tail))));
    SpelledParses(line, Digits(start), Digits(end), tail, Header(start, 1, end, 1));
  }

  // ---- a patch for one changed line ------------------------------------------------------------------------

  /** A hunk with both counts left out that replaces one line `a` by `b`. */
  function BareLine(start: nat): string {
    "@@ -" + (Digits(start) + (" +" + (Digits(start) + (" @@" + ""))))
  }

  function ReplacePatch(start: nat): string { BareLine(start) + ("\n" + ("-a" + ("\n" + "+b"))) }

  lemma ReplacePatchText()
    ensures ReplacePatch(1) == "@@ -1 +1 @@\n-a\n+b"
  {
    assert Digits(1) == "1";
  }

  lemma BareLineParses(start: nat)
    ensures ParseHeader(BareLine(start)) == Some(Header(start, 1, start, 1))
  {
    BareHeader(start, start, "");
  }

  lemma LineOfDigits(line: string, d: string)
    requires AllDigits(d) && line == "@@ -" + (d + (" +" + (d + (" @@" + ""))))
    ensures Unbroken(line) && IsHunkStart(line)
  {
    assert line[..2] == "@@";
    assert forall i :: 0 <= i < |d| ==> !IsBreak(d[i]);
  }

  lemma ThreeLines(a: string, b: string, c: string)
    requires Unbroken(a) && Unbroken(b) && Unbroken(c) && c != ""
    ensures SplitLines(a + ("\n" + (b + ("\n" + c)))) == [a, b, c]
  {
    SplitOne(c);
    SplitFirst(b, c);
    SplitFirst(a, b + ("\n" + c));
  }

  lemma ReplaceOpens(lines: seq<string>, header: string, h: Header)
    requires lines == [header, "-a", "+b"] && ParseHeader(header) == Some(h) && IsHunkStart(header)
    requires h.oldStart >= 1 && h.newStart == h.oldStart
    ensures Opens(lines, 0, h)
  {
    NotHunkStart("-a");
    NotHunkStart("+b");
  }

  lemma ReplaceSides(body: seq<string>)
    requires body == ["-a", "+b"]
    ensures WellFormedBody(body) && OldSide(body) == ["a"] && NewSide(body) == ["b"]
  {
    var front: seq<string> := [];
    assert body[..1] == ["-a"] && body[..1][..0] == front;
    assert body[0][1..] == "a" && body[1][1..] == "b" && body[0][0] == '-' && body[1][0] == '+';
    assert body[0] != NO_NEWLINE && body[1] != NO_NEWLINE by { assert NO_NEWLINE[0] == '\\'; }
    assert OldSide(front) == [] && NewSide(front) == [];
    assert OldSide(body[..1]) == ["a"] && NewSide(body[..1]) == [];
  }

  lemma ReplacesLine(body: seq<string>, base: seq<string>, at: nat)
    requires WellFormedBody(body) && OldSide(body) == ["a"] && NewSide(body) == ["b"]
    requires at < |base| && base[at] == "a"
    ensures BodyApplies(body, base, at, 1, 1, base[at := "b"])
  {
    assert base[at..at + 1] == ["a"];
    assert base[at := "b"] == base[..at] + ["b"] + base[at + 1..];
  }

  lemma ReplaceBody(body: seq<string>, base: seq<string>, at: nat)
    requires body == ["-a", "+b"] && at < |base| && base[at] == "a"
    ensures BodyApplies(body, base, at, 1, 1, base[at := "b"])
  {
    ReplaceSides(body);
    ReplacesLine(body, base, at);
  }

  lemma ReplacePatchLines(start: nat)
    ensures SplitLines(ReplacePatch(start)) == [BareLine(start), "-a", "+b"]
  {
    LineOfDigits(BareLine(start), Digits(start));
    ThreeLines(BareLine(start), "-a", "+b");
  }

  lemma OnlyHunkApplies(lines: seq<string>, h: Header, body: seq<string>, base: seq<string>, r: seq<string>)
    requires Opens(lines, 0, h) && lines[1..] == body
    requires BodyApplies(body, base, h.oldStart - 1, h.oldCount, h.newCount, r)
    ensures Applies(lines, 0, base, r)
  {
    AppliesOpens(lines, 0, h, 0, base, r);
  }

  lemma AppliesToText(patch: string, base: string, h: nat, r: seq<string>)
    requires Applies(SplitLines(patch), h, SplitLines(base), r)
    ensures TextApplies(patch, base, Join(r) + Suffix(base))
  {
  }

  /** A hunk with its counts left out replaces the one line it names. */
  lemma ReplacedText(start: nat, base: string)
    requires 1 <= start <= |SplitLines(base)| && SplitLines(base)[start - 1] == "a"
    ensures TextApplies(ReplacePatch(start), base, Join(SplitLines(base)[start - 1 := "b"]) + Suffix(base))
  {
    var base' := SplitLines(base);
    ReplacePatchLines(start);
    ReplacePatchOpens(start, SplitLines(ReplacePatch(start)));
    ReplaceBody(["-a", "+b"], base', start - 1);
    OnlyHunkApplies(SplitLines(ReplacePatch(start)), Header(start, 1, start, 1), ["-a", "+b"], base',
                    base'[start - 1 := "b"]);
    AppliesToText(ReplacePatch(start), base, 0, base'[start - 1 := "b"]);
  }

  lemma ReplacePatchOpens(start: nat, lines: seq<string>)
    requires start >= 1 && lines == [BareLine(start), "-a", "+b"]
    ensures Opens(lines, 0, Header(start, 1, start, 1)) && lines[1..] == ["-a", "+b"]
  {
    BareLineParses(start);
    LineOfDigits(BareLine(start), Digits(start));
    ReplaceOpens(lines, BareLine(start), Header(start, 1, start, 1));
  }

  lemma JoinOne(lines: seq<string>, line: string)
    requires |lines| == 1
    ensures Join(lines[0 := line]) == line
  {
  }

  lemma OnlyLineReplaced(start: nat, base: string, lines: seq<string>, text: string)
    requires start == 1 && lines == ["a"] && SplitLines(base) == lines && text == "b" + Suffix(base)
    ensures TextApplies(ReplacePatch(start), base, text)
  {
    ReplacedText(start, base);
    JoinOne(lines, "b");
  }

  lemma OneLineEach()
    ensures SplitLines("a\n") == ["a"] && SplitLines("a\r\n") == ["a"] && SplitLines("a") == ["a"]
  {
    SplitOff("a", "\n", "");
    assert "a" + ("\n" + "") == "a\n";
    SplitOff("a", "\r\n", "");
    assert "a" + ("\r\n" + "") == "a\r\n";
    SplitOne("a");
  }

  /** The patch as Git prints it for one line: applied to the line with a line feed, with a carriage return and a line
      feed, and without either.  The result is joined with line feeds. */
  lemma ReplacePatchApplies(base: string)
    requires base in ["a\n", "a\r\n", "a"]
    ensures ReplacePatch(1) == "@@ -1 +1 @@\n-a\n+b"
    ensures TextApplies(ReplacePatch(1), base, if base == "a" then "b" else "b\n")
  {
    ReplacePatchText();
    OneLineEach();
    OnlyLineReplaced(1, base, ["a"], if base == "a" then "b" else "b\n");
  }

  /** The note that a file has no final newline is passed over, wherever it stands. */
  lemma NoteIsPassedOver(body: seq<string>, note: string)
    requires note == "\\ No newline at end of file"
    ensures OldSide(body + [note]) == OldSide(body) && NewSide(body + [note]) == NewSide(body)
    ensures WellFormedBody(body + [note]) <==> WellFormedBody(body)
  {
    var longer := body + [note];
    assert longer[..|body|] == body && longer[|body|] == note;
    assert forall i :: 0 <= i < |body| ==> longer[i] == body[i];
  }
}
