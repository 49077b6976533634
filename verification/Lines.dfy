/** Python's `str.splitlines()` and `"\n".join(lines)`, and how far they undo each other. */
module Lines {

  predicate IsBreak(c: char) {
    || c == '\n' || c == '\r' || c == '\U{0B}' || c == '\U{0C}' || c == '\U{1C}' || c == '\U{1D}' || c == '\U{1E}'
    || c == '\U{85}' || c == '\U{2028}' || c == '\U{2029}'
  }

  predicate Unbroken(s: string) { forall i :: 0 <= i < |s| ==> !IsBreak(s[i]) }

  predicate AllUnbroken(lines: seq<string>) { forall i :: 0 <= i < |lines| ==> Unbroken(lines[i]) }

  predicate OnlyLineFeeds(s: string) { forall i :: 0 <= i < |s| && IsBreak(s[i]) ==> s[i] == '\n' }

  function FirstBreak(s: string): (k: nat)
    ensures k <= |s| && Unbroken(s[..k]) && (k < |s| ==> IsBreak(s[k]))
  {
    if s == [] || IsBreak(s[0]) then 0 else 1 + FirstBreak(s[1..])
  }

  /** A carriage return takes the line feed behind it along. */
  function BreakLength(s: string, k: nat): (n: nat)
    requires k < |s|
    ensures 1 <= n <= |s| - k
  {
    if s[k] == '\r' && k + 1 < |s| && s[k + 1] == '\n' then 2 else 1
  }

  function SplitLines(s: string): seq<string>
    decreases |s|
  {
    if s == [] then []
    else
      var k := FirstBreak(s);
      if k == |s| then [s] else [s[..k]] + SplitLines(s[k + BreakLength(s, k)..])
  }

  function Join(lines: seq<string>): string {
    if lines == [] then "" else if |lines| == 1 then lines[0] else lines[0] + "\n" + Join(lines[1..])
  }

  predicate EndsWithNewline(s: string) { s != [] && s[|s| - 1] == '\n' }

  function Suffix(s: string): string { if EndsWithNewline(s) then "\n" else "" }

  lemma {:induction false} SplitUnbroken(s: string)
    ensures AllUnbroken(SplitLines(s))
    decreases |s|
  {
    if s != [] {
      var k := FirstBreak(s);
      if k < |s| { SplitUnbroken(s[k + BreakLength(s, k)..]); } else { assert s[..k] == s; }
    }
  }

  lemma FirstBreakIs(s: string, k: nat)
    requires k <= |s| && Unbroken(s[..k]) && (k < |s| ==> IsBreak(s[k]))
    ensures FirstBreak(s) == k
  {
    var m := FirstBreak(s);
    assert forall i :: 0 <= i < m ==> !IsBreak(s[..m][i]) && s[..m][i] == s[i];
    assert forall i :: 0 <= i < k ==> !IsBreak(s[..k][i]) && s[..k][i] == s[i];
  }

  /** A line and its line feed split off. */
  lemma SplitFirst(line: string, rest: string)
    requires Unbroken(line)
    ensures SplitLines(line + ("\n" + rest)) == [line] + SplitLines(rest)
  {
    var s := line + ("\n" + rest);
    assert s[..|line|] == line && s[|line|] == '\n' && s[|line| + 1..] == rest;
    FirstBreakIs(s, |line|);
  }

  lemma SplitOne(line: string)
    requires Unbroken(line)
    ensures SplitLines(line) == if line == "" then [] else [line]
  {
    if line != "" {
      assert line[..|line|] == line;
      FirstBreakIs(line, |line|);
    }
  }

  lemma JoinFirst(lines: seq<string>)
    requires |lines| >= 2
    ensures Join(lines) == lines[0] + ("\n" + Join(lines[1..]))
  {
  }

  lemma NewlineStep(line: string, joined: string, lines: seq<string>)
    requires Unbroken(line) && SplitLines(joined + "\n") == lines
    ensures SplitLines(line + ("\n" + joined) + "\n") == [line] + lines
  {
    SplitFirst(line, joined + "\n");
    Regroup(line, "\n", joined, "\n");
  }

  lemma Regroup(a: string, b: string, c: string, d: string)
    ensures a + (b + c) + d == a + (b + (c + d))
  {
  }

  /** Joined lines with a final newline split back, unless there were none. */
  lemma {:induction false} SplitJoinNewline(lines: seq<string>)
    requires AllUnbroken(lines) && lines != []
    ensures SplitLines(Join(lines) + "\n") == lines
  {
    if |lines| == 1 {
      SplitFirst(lines[0], "");
      assert Join(lines) + "\n" == lines[0] + ("\n" + "");
    } else {
      JoinFirst(lines);
      SplitJoinNewline(lines[1..]);
      NewlineStep(lines[0], Join(lines[1..]), lines[1..]);
      assert lines == [lines[0]] + lines[1..];
    }
  }

  function Kept(lines: seq<string>): seq<string> {
    if lines != [] && lines[|lines| - 1] == "" then lines[..|lines| - 1] else lines
  }

  lemma KeptStep(lines: seq<string>)
    requires |lines| >= 2
    ensures Kept(lines) == [lines[0]] + Kept(lines[1..])
  {
    assert lines[1..][|lines| - 2] == lines[|lines| - 1];
    assert lines[1..][..|lines| - 2] == lines[1..|lines| - 1];
    assert lines == [lines[0]] + lines[1..] && lines[..|lines| - 1] == [lines[0]] + lines[1..|lines| - 1];
  }

  /** Without a final newline an empty last line is lost. */
  lemma {:induction false} SplitJoin(lines: seq<string>)
    requires AllUnbroken(lines)
    ensures SplitLines(Join(lines)) == Kept(lines)
  {
    if lines == [] {
    } else if |lines| == 1 {
      SplitOne(lines[0]);
    } else {
      JoinFirst(lines);
      SplitJoin(lines[1..]);
      SplitFirst(lines[0], Join(lines[1..]));
      KeptStep(lines);
    }
  }

  /** A text that breaks lines with line feeds only is its lines, joined, and its final newline. */
  lemma {:induction false} JoinSplit(s: string)
    requires OnlyLineFeeds(s)
    ensures s == Join(SplitLines(s)) + Suffix(s)
    decreases |s|
  {
    if s != [] {
      var k := FirstBreak(s);
      if k < |s| {
        assert s[k] == '\n' && BreakLength(s, k) == 1;
        var rest := s[k + 1..];
        assert s == s[..k] + ("\n" + rest);
        assert OnlyLineFeeds(rest);
        JoinSplit(rest);
        JoinSplitStep(s[..k], rest);
      } else {
        assert !IsBreak(s[..k][|s| - 1]);
      }
    }
  }

  lemma JoinSplitStep(line: string, rest: string)
    requires rest == Join(SplitLines(rest)) + Suffix(rest)
    ensures var s := line + ("\n" + rest); s == Join([line] + SplitLines(rest)) + Suffix(s)
  {
    var lines := SplitLines(rest);
    if rest != [] {
      assert lines != [];
      JoinFirst([line] + lines);
      assert ([line] + lines)[1..] == lines;
    }
  }

  lemma {:induction false} JoinOnlyLineFeeds(lines: seq<string>)
    requires AllUnbroken(lines)
    ensures OnlyLineFeeds(Join(lines)) && OnlyLineFeeds(Join(lines) + "\n")
  {
    if |lines| >= 2 {
      JoinFirst(lines);
      JoinOnlyLineFeeds(lines[1..]);
    }
  }

  // ---- every kind of line end ------------------------------------------------------------------------------

  /** One break, or a carriage return with its line feed. */
  predicate IsLineEnd(end: string) { (|end| == 1 && IsBreak(end[0])) || end == "\r\n" }

  /** A carriage return that ends a line must not be read together with what follows. */
  predicate EndsBefore(end: string, rest: string) { end == "\r" ==> rest == "" || rest[0] != '\n' }

  lemma BreakIsEnd(line: string, end: string, rest: string)
    requires IsLineEnd(end) && EndsBefore(end, rest)
    ensures var s := line + (end + rest);
            && IsBreak(s[|line|]) && BreakLength(s, |line|) == |end|
            && s[..|line|] == line && s[|line| + |end|..] == rest
  {
    var s := line + (end + rest);
    assert s[|line|] == end[0];
    if |end| == 2 {
      assert end[0] == '\r' && s[|line| + 1] == end[1] == '\n';
    } else if end[0] == '\r' && rest != "" {
      assert end == "\r" && s[|line| + 1] == rest[0];
    }
  }

  /** A line and its end, whatever it is, split off. */
  lemma SplitOff(line: string, end: string, rest: string)
    requires Unbroken(line) && IsLineEnd(end) && EndsBefore(end, rest)
    ensures SplitLines(line + (end + rest)) == [line] + SplitLines(rest)
  {
    BreakIsEnd(line, end, rest);
    FirstBreakIs(line + (end + rest), |line|);
  }

  /** Lines with their ends, one after the other. */
  function TextOf(lines: seq<string>, ends: seq<string>): string
    requires |lines| == |ends|
  {
    if lines == [] then "" else lines[0] + (ends[0] + TextOf(lines[1..], ends[1..]))
  }

  ghost predicate Ended(lines: seq<string>, ends: seq<string>) {
    && |lines| == |ends| && AllUnbroken(lines)
    && forall i :: 0 <= i < |ends| ==> IsLineEnd(ends[i]) && EndsBefore(ends[i], TextOf(lines[i + 1..], ends[i + 1..]))
  }

  lemma EndedLater(lines: seq<string>, ends: seq<string>)
    requires Ended(lines, ends) && lines != []
    ensures Ended(lines[1..], ends[1..])
  {
    forall i | 0 <= i < |ends[1..]|
      ensures IsLineEnd(ends[1..][i]) && EndsBefore(ends[1..][i], TextOf(lines[1..][i + 1..], ends[1..][i + 1..]))
    {
      assert lines[1..][i + 1..] == lines[i + 2..] && ends[1..][i + 1..] == ends[i + 2..];
      assert IsLineEnd(ends[i + 1]) && EndsBefore(ends[i + 1], TextOf(lines[i + 1 + 1..], ends[i + 1 + 1..]));
    }
  }

  /** A text splits into its lines, with line feeds, carriage returns, both together or any other break. */
  lemma {:induction false} SplitMixed(lines: seq<string>, ends: seq<string>)
    requires Ended(lines, ends)
    ensures SplitLines(TextOf(lines, ends)) == lines
  {
    if lines != [] {
      EndedLater(lines, ends);
      SplitMixed(lines[1..], ends[1..]);
      assert IsLineEnd(ends[0]) && EndsBefore(ends[0], TextOf(lines[0 + 1..], ends[0 + 1..]));
      SplitOff(lines[0], ends[0], TextOf(lines[1..], ends[1..]));
      assert lines == [lines[0]] + lines[1..];
    }
  }

  /** The characters that break lines. */
  lemma BreaksAre(c: char)
    ensures IsBreak(c) <==>
            c as int in {0x0A, 0x0B, 0x0C, 0x0D, 0x1C, 0x1D, 0x1E, 0x85, 0x2028, 0x2029}
  {
  }
}
