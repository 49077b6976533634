/** The string literals of canonical JSON: Python's `ensure_ascii` escaping and its inverse.

Every character outside `' '..'~'`, the quotation mark and the reverse solidus is escaped; a code
point above 0xFFFF becomes an escaped surrogate pair, which the decoder merges again (RFC 8259,
section 7).
 */
module JsonString {
  import opened Text
  import opened Wrappers

  function HexDigit(d: int): (c: char)
    requires 0 <= d < 16
  {
    if d < 10 then ('0' as int + d) as char else ('a' as int + d - 10) as char
  }

  function HexValue(c: char): (v: int)
    ensures -1 <= v < 16
  {
    if '0' <= c <= '9' then c as int - '0' as int
    else if 'a' <= c <= 'f' then c as int - 'a' as int + 10
    else if 'A' <= c <= 'F' then c as int - 'A' as int + 10
    else -1
  }

  function Hex4(u: int): (s: string)
    requires 0 <= u < 0x10000
    ensures |s| == 4
  {
    [HexDigit(u / 16 / 16 / 16), HexDigit(u / 16 / 16 % 16), HexDigit(u / 16 % 16), HexDigit(u % 16)]
  }

  function Unit(u: int): (s: string)
    requires 0 <= u < 0x10000
    ensures |s| == 6
  {
    "\\u" + Hex4(u)
  }

  function High(c: int): (u: int)
    requires 0x10000 <= c <= 0x10FFFF
    ensures IsHigh(u)
  {
    0xD800 + (c - 0x10000) / 0x400
  }

  function Low(c: int): (u: int)
    requires 0x10000 <= c <= 0x10FFFF
    ensures IsLow(u)
  {
    0xDC00 + (c - 0x10000) % 0x400
  }

  function Merge(h: int, l: int): (c: int)
    requires IsHigh(h) && IsLow(l)
    ensures 0x10000 <= c <= 0x10FFFF
    ensures High(c) == h && Low(c) == l
  {
    0x10000 + (h - 0xD800) * 0x400 + (l - 0xDC00)
  }

  function EscapeChar(c: int): (s: string)
    requires 0 <= c <= 0x10FFFF
    ensures s != []
  {
    if c == 0x22 then "\\\""
    else if c == 0x5C then "\\\\"
    else if c == 0x0A then "\\n"
    else if c == 0x0D then "\\r"
    else if c == 0x09 then "\\t"
    else if c == 0x0C then "\\f"
    else if c == 0x08 then "\\b"
    else if 0x20 <= c <= 0x7E then [c as char]
    else if c < 0x10000 then Unit(c)
    else Unit(High(c)) + Unit(Low(c))
  }

  function Escape(s: CodePoints): string {
    if s == [] then [] else EscapeChar(s[0]) + Escape(s[1..])
  }

  function Quote(s: CodePoints): string {
    "\"" + Escape(s) + "\""
  }

  /** The code unit spelled by `\uXXXX` at the front of `s`, if one is. */
  function UnitAt(s: string): (r: Option<int>)
    ensures r.Some? ==> 6 <= |s| && s[0] == '\\' && 0 <= r.value < 0x10000
  {
    if |s| < 6 || s[0] != '\\' || s[1] != 'u' then None
    else
      var a, b, c, d := HexValue(s[2]), HexValue(s[3]), HexValue(s[4]), HexValue(s[5]);
      if a < 0 || b < 0 || c < 0 || d < 0 then None
      else Some(16 * (16 * (16 * a + b) + c) + d)
  }

  function ShortEscape(c: char): (r: Option<int>)
    ensures r.Some? ==> 0 <= r.value < 0x80
  {
    match c
    case '\"' => Some(0x22)
    case '\\' => Some(0x5C)
    case '/' => Some(0x2F)
    case 'n' => Some(0x0A)
    case 'r' => Some(0x0D)
    case 't' => Some(0x09)
    case 'f' => Some(0x0C)
    case 'b' => Some(0x08)
    case _ => None
  }

  function Prepend(c: int, r: Option<(CodePoints, string)>): Option<(CodePoints, string)>
    requires 0 <= c <= 0x10FFFF
  {
    if r.None? then None else Some(([c] + r.value.0, r.value.1))
  }

  /** Python's JSON string decoder, from just behind the opening quotation mark. */
  function ParseChars(s: string): (r: Option<(CodePoints, string)>)
    ensures r.Some? ==> |r.value.1| < |s| && NoPair(r.value.0)
    ensures r.Some? && r.value.0 != [] && IsLow(r.value.0[0]) ==> UnitAt(s) == Some(r.value.0[0])
  {
    if s == [] then None
    else if s[0] == '\"' then Some(([], s[1..]))
    else if s[0] == '\\' then
      var unit := UnitAt(s);
      if unit.Some? then
        var low := UnitAt(s[6..]);
        if IsHigh(unit.value) && low.Some? && IsLow(low.value) then
          Prepend(Merge(unit.value, low.value), ParseChars(s[12..]))
        else
          Prepend(unit.value, ParseChars(s[6..]))
      else if |s| >= 2 && ShortEscape(s[1]).Some? then
        Prepend(ShortEscape(s[1]).value, ParseChars(s[2..]))
      else None
    else if s[0] as int < 0x20 then None
    else Prepend(s[0] as int, ParseChars(s[1..]))
  }

  /** What a decoder makes of a string: each adjacent surrogate pair becomes one code point. */
  function Combine(s: CodePoints): (r: CodePoints) {
    if s == [] then []
    else if |s| >= 2 && IsHigh(s[0]) && IsLow(s[1]) then [Merge(s[0], s[1])] + Combine(s[2..])
    else [s[0]] + Combine(s[1..])
  }

  lemma {:induction false} CombineFixesExactlyUnpaired(s: CodePoints)
    ensures Combine(s) == s <==> NoPair(s)
    ensures |Combine(s)| <= |s|
  {
    if s == [] {
    } else if |s| >= 2 && IsHigh(s[0]) && IsLow(s[1]) {
      CombineFixesExactlyUnpaired(s[2..]);
    } else {
      CombineFixesExactlyUnpaired(s[1..]);
      assert s == [s[0]] + s[1..];
      if Combine(s) == s { assert Combine(s)[1..] == s[1..]; }
      if NoPair(s[1..]) {
        forall i | 0 <= i < |s| - 1 ensures !(IsHigh(s[i]) && IsLow(s[i + 1])) {
          if i > 0 { assert s[i] == s[1..][i - 1] && s[i + 1] == s[1..][i]; }
        }
      }
    }
  }

  lemma HexDigitValue(d: int)
    requires 0 <= d < 16
    ensures HexValue(HexDigit(d)) == d
  {
  }

  lemma UnitRoundTrip(u: int, rest: string)
    requires 0 <= u < 0x10000
    ensures UnitAt(Unit(u) + rest) == Some(u)
    ensures (Unit(u) + rest)[6..] == rest
  {
    HexDigitValue(u / 16 / 16 / 16);
    HexDigitValue(u / 16 / 16 % 16);
    HexDigitValue(u / 16 % 16);
    HexDigitValue(u % 16);
    var s := Unit(u) + rest;
    assert s[0] == '\\' && s[1] == 'u';
    assert s[2] == Hex4(u)[0] && s[3] == Hex4(u)[1] && s[4] == Hex4(u)[2] && s[5] == Hex4(u)[3];
  }

  /** An escaped character is never mistaken for a low surrogate unless it is one. */
  lemma EscapeCharUnit(c: int, rest: string)
    requires 0 <= c <= 0x10FFFF
    ensures var u := UnitAt(EscapeChar(c) + rest); u.Some? && IsLow(u.value) ==> u == Some(c)
  {
    var s := EscapeChar(c) + rest;
    if c >= 0x10000 {
      assert s == Unit(High(c)) + (Unit(Low(c)) + rest);
      UnitRoundTrip(High(c), Unit(Low(c)) + rest);
    } else if !(0x20 <= c <= 0x7E) && c !in {0x0A, 0x0D, 0x09, 0x0C, 0x08} {
      UnitRoundTrip(c, rest);
    } else {
      assert s[0] != '\\' || s[1] != 'u';
    }
  }

  /** Two escaped halves of a pair are decoded together. */
  lemma PairStep(h: int, l: int, rest: string)
    requires IsHigh(h) && IsLow(l)
    ensures ParseChars(Unit(h) + (Unit(l) + rest)) == Prepend(Merge(h, l), ParseChars(rest))
  {
    var s := Unit(h) + (Unit(l) + rest);
    UnitRoundTrip(h, Unit(l) + rest);
    UnitRoundTrip(l, rest);
    assert s[12..] == rest;
  }

  lemma UnitStep(u: int, rest: string)
    requires 0 <= u < 0x10000
    requires IsHigh(u) ==> UnitAt(rest).None? || !IsLow(UnitAt(rest).value)
    ensures ParseChars(Unit(u) + rest) == Prepend(u, ParseChars(rest))
  {
    UnitRoundTrip(u, rest);
  }

  lemma ShortStep(e: char, rest: string)
    requires ShortEscape(e).Some?
    ensures ParseChars(['\\', e] + rest) == Prepend(ShortEscape(e).value, ParseChars(rest))
  {
    var s := ['\\', e] + rest;
    assert s[1] == e && s[2..] == rest;
  }

  lemma RawStep(c: int, rest: string)
    requires 0x20 <= c <= 0x7E && c != 0x22 && c != 0x5C
    ensures ParseChars([c as char] + rest) == Prepend(c, ParseChars(rest))
  {
    var s := [c as char] + rest;
    assert s[0] == c as char && s[1..] == rest;
  }

  predicate HasShort(c: int) { c in {0x22, 0x5C, 0x0A, 0x0D, 0x09, 0x0C, 0x08} }

  function ShortLetter(c: int): char {
    if c == 0x0A then 'n' else if c == 0x0D then 'r' else if c == 0x09 then 't'
    else if c == 0x0C then 'f' else if c == 0x08 then 'b' else if c == 0x22 then '\"' else '\\'
  }

  lemma ShortLetterEscapes(c: int)
    requires HasShort(c)
    ensures EscapeChar(c) == ['\\', ShortLetter(c)] && ShortEscape(ShortLetter(c)) == Some(c)
  {
  }

  lemma ShortRoundTrip(c: int, rest: string)
    requires HasShort(c)
    ensures ParseChars(EscapeChar(c) + rest) == Prepend(c, ParseChars(rest))
  {
    ShortLetterEscapes(c);
    ShortStep(ShortLetter(c), rest);
  }

  /** One printed character is decoded by one step, unless it is the first half of a pair. */
  lemma StepRoundTrip(c: int, rest: string)
    requires 0 <= c <= 0x10FFFF
    requires IsHigh(c) ==> UnitAt(rest).None? || !IsLow(UnitAt(rest).value)
    ensures ParseChars(EscapeChar(c) + rest) == Prepend(c, ParseChars(rest))
  {
    if HasShort(c) { ShortRoundTrip(c, rest); }
    else if 0x20 <= c <= 0x7E { RawStep(c, rest); }
    else if c < 0x10000 { UnitStep(c, rest); }
    else { PairRoundTrip(c, rest); }
  }

  lemma PairRoundTrip(c: int, rest: string)
    requires 0x10000 <= c <= 0x10FFFF
    ensures ParseChars(EscapeChar(c) + rest) == Prepend(c, ParseChars(rest))
  {
    assert EscapeChar(c) + rest == Unit(High(c)) + (Unit(Low(c)) + rest);
    MergeInverse(c);
    PairStep(High(c), Low(c), rest);
  }

  lemma MergeInverse(c: int)
    requires 0x10000 <= c <= 0x10FFFF
    ensures Merge(High(c), Low(c)) == c
  {
  }

  lemma EscapeFirst(s: CodePoints, tail: string)
    requires s != []
    ensures Escape(s) + tail == EscapeChar(s[0]) + (Escape(s[1..]) + tail)
  {
  }

  /** Decoding a printed string gives the string with its surrogate pairs merged. */
  lemma {:induction false} EscapeParses(s: CodePoints, rest: string)
    ensures ParseChars(Escape(s) + ("\"" + rest)) == Some((Combine(s), rest))
  {
    var tail := "\"" + rest;
    if s == [] {
      assert Escape(s) + tail == tail;
    } else {
      EscapeFirst(s, tail);
      var more := Escape(s[1..]) + tail;
      if |s| >= 2 && IsHigh(s[0]) && IsLow(s[1]) {
        EscapeParses(s[2..], rest);
        EscapeFirst(s[1..], tail);
        assert s[1..][1..] == s[2..];
        PairStep(s[0], s[1], Escape(s[2..]) + tail);
      } else {
        EscapeParses(s[1..], rest);
        if s[1..] == [] {
          assert more == tail && UnitAt(more).None?;
        } else {
          EscapeFirst(s[1..], tail);
          EscapeCharUnit(s[1], Escape(s[1..][1..]) + tail);
        }
        StepRoundTrip(s[0], more);
      }
    }
  }

  lemma EscapeCons(c: int, rest: CodePoints, s: CodePoints)
    requires 0 <= c <= 0x10FFFF && s == [c] + rest
    ensures Escape(s) == EscapeChar(c) + Escape(rest)
  {
    assert s[1..] == rest;
  }

  /** A pair is spelled like the character it encodes. */
  lemma PairSpelled(h: int, l: int)
    requires IsHigh(h) && IsLow(l)
    ensures EscapeChar(Merge(h, l)) == EscapeChar(h) + EscapeChar(l)
  {
  }

  lemma EscapePair(s: CodePoints)
    requires |s| >= 2
    ensures Escape(s) == EscapeChar(s[0]) + EscapeChar(s[1]) + Escape(s[2..])
  {
    assert s[1..][1..] == s[2..];
    Associate(EscapeChar(s[0]), EscapeChar(s[1]), Escape(s[2..]));
  }

  lemma Associate(a: string, b: string, c: string)
    ensures a + (b + c) == a + b + c
  {
  }

  lemma {:induction false} EscapeCombine(s: CodePoints)
    ensures Escape(Combine(s)) == Escape(s)
  {
    if s == [] {
    } else if |s| >= 2 && IsHigh(s[0]) && IsLow(s[1]) {
      EscapeCombine(s[2..]);
      EscapePair(s);
      PairSpelled(s[0], s[1]);
      EscapeCons(Merge(s[0], s[1]), Combine(s[2..]), Combine(s));
    } else {
      EscapeCombine(s[1..]);
      EscapeCons(s[0], Combine(s[1..]), Combine(s));
    }
  }

  /** Two Python strings print alike exactly when decoding cannot tell them apart. */
  lemma EscapeEqualIffCombinedEqual(a: CodePoints, b: CodePoints)
    ensures Quote(a) == Quote(b) <==> Combine(a) == Combine(b)
  {
    EscapeCombine(a);
    EscapeCombine(b);
    if Quote(a) == Quote(b) { QuotesEqual(a, b); }
  }

  lemma Unquoted(a: CodePoints)
    ensures Quote(a)[1..] == Escape(a) + ("\"" + "")
  {
    assert Quote(a) == "\"" + (Escape(a) + "\"");
    assert Escape(a) + "\"" == Escape(a) + ("\"" + "");
  }

  lemma QuotesEqual(a: CodePoints, b: CodePoints)
    requires Quote(a) == Quote(b)
    ensures Combine(a) == Combine(b)
  {
    Unquoted(a);
    Unquoted(b);
    EscapeParses(a, "");
    EscapeParses(b, "");
  }

  lemma CombineOne(c: int)
    requires 0 <= c <= 0x10FFFF
    ensures Combine([c]) == [c]
  {
    assert [c][1..] == [];
  }

  lemma CombinePair(h: int, l: int)
    requires IsHigh(h) && IsLow(l)
    ensures Combine([h, l]) == [Merge(h, l)]
  {
    assert [h, l][2..] == [];
  }

  /** The printer is not injective on all Python strings: a pair and the character it encodes. */
  lemma LoneSurrogatesCollide()
    ensures var pair: CodePoints := [0xD83D, 0xDE00];
            var merged: CodePoints := [0x1F600];
            pair != merged && Quote(pair) == Quote(merged)
  {
    CombineOne(0x1F600);
    CombinePair(0xD83D, 0xDE00);
    EscapeEqualIffCombinedEqual([0xD83D, 0xDE00], [0x1F600]);
  }

  lemma AfterQuote(e: string, rest: string)
    ensures var w := "\"" + e + "\"" + rest; w != [] && w[0] == '\"' && w[1..] == e + ("\"" + rest)
  {
    assert "\"" + e + "\"" + rest == "\"" + (e + ("\"" + rest));
  }

  /** On decoded text the printer is inverted by the decoder. */
  lemma QuoteParses(s: Str, rest: string)
    ensures Quote(s) + rest != [] && (Quote(s) + rest)[0] == '\"'
    ensures ParseChars((Quote(s) + rest)[1..]) == Some((s, rest))
  {
    CombineFixesExactlyUnpaired(s);
    EscapeParses(s, rest);
    AfterQuote(Escape(s), rest);
  }

  // ---- what the reader takes -------------------------------------------------------------------------------

  /** Hexadecimal digits of either case. */
  lemma HexValueExactly(c: char, v: int)
    ensures 0 <= v < 16 ==> (HexValue(c) == v <==> c == "0123456789abcdef"[v] || c == "0123456789ABCDEF"[v])
    ensures HexValue(c) == -1 <==> c !in "0123456789abcdef" && c !in "0123456789ABCDEF"
  {
  }

  /** The eight characters that may follow a backslash, besides `u`, and what they stand for. */
  lemma ShortEscapesExactly(c: char)
    ensures ShortEscape(c).Some? <==> c in "\"\\/bfnrt"
    ensures ShortEscape('/') == Some('/' as int) && ShortEscape('\\') == Some('\\' as int)
    ensures ShortEscape('\"') == Some('\"' as int) && ShortEscape('n') == Some('\n' as int)
    ensures ShortEscape('r') == Some('\r' as int) && ShortEscape('t') == Some('\t' as int)
    ensures ShortEscape('b') == Some(8) && ShortEscape('f') == Some(12)
  {
  }
}
