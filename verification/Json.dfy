/** JSON values as `json.load` builds them, their canonical printer and a reader for it.

The printer is `json.dumps(value, sort_keys=True, separators=(",", ":"), ensure_ascii=True,
allow_nan=False)`.  The reader follows the grammar of RFC 8259, sections 3 to 7, without
insignificant whitespace, which the printer never emits.
 */
module Json {
  import opened Text
  import opened Decimal
  import opened JsonString
  import opened Wrappers

  predicate IsNumberChar(c: char) {
    IsDigit(c) || c == '-' || c == '+' || c == '.' || c == 'e' || c == 'E'
  }

  /** What Python's `repr` of a finite float looks like: never the spelling of an integer. */
  predicate IsFloatRepr(t: string) {
    && t != [] && (IsDigit(t[0]) || t[0] == '-')
    && (forall i :: 0 <= i < |t| ==> IsNumberChar(t[i]))
    && ('.' in t || 'e' in t)
  }

  type FloatRepr = t: string | IsFloatRepr(t) witness "0.0"

  /** A float is known by its shortest decimal spelling, or it is NaN or an infinity. */
  datatype Float = Finite(repr: FloatRepr) | NonFinite

  datatype Value =
    | Null
    | Bool(b: bool)
    | Int(n: int)
    | Real(f: Float)
    | String(s: Str)
    | Array(items: seq<Value>)
    | Object(fields: map<Str, Value>)

  /** `mapping.get(key)`: a missing key reads as `None`. */
  function Get(fields: map<Str, Value>, key: Str): Value {
    if key in fields then fields[key] else Null
  }

  /** No NaN or infinity anywhere inside. */
  predicate AllFinite(v: Value) {
    match v
    case Real(f) => f.Finite?
    case Array(items) => forall i :: 0 <= i < |items| ==> AllFinite(items[i])
    case Object(fields) => forall k :: k in fields ==> AllFinite(fields[k])
    case _ => true
  }

  function IntText(n: int): (s: string)
    ensures s != []
  {
    if n < 0 then "-" + Digits(-n) else Digits(n)
  }

  function Print(v: Value): string
    requires AllFinite(v)
    decreases v, 2, 0
  {
    match v
    case Null => "null"
    case Bool(b) => if b then "true" else "false"
    case Int(n) => IntText(n)
    case Real(f) => f.repr
    case String(s) => Quote(s)
    case Array(items) => "[" + PrintItems(v, items) + "]"
    case Object(fields) => "{" + PrintMembers(v, SortedKeys(fields.Keys)) + "}"
  }

  ghost predicate ItemsOf(v: Value, items: seq<Value>) {
    v.Array? && AllFinite(v) && |items| <= |v.items| && items == v.items[|v.items| - |items|..]
  }

  /** The elements of the array `v` from some index on. */
  function PrintItems(v: Value, items: seq<Value>): string
    requires ItemsOf(v, items)
    decreases v, 1, |items|
  {
    if items == [] then ""
    else if |items| == 1 then Print(items[0])
    else Print(items[0]) + "," + PrintItems(v, items[1..])
  }

  ghost predicate KeysOf(v: Value, keys: seq<Str>) {
    && v.Object? && AllFinite(v)
    && (forall k :: k in keys ==> k in v.fields)
    && (forall i, j :: 0 <= i < j < |keys| ==> keys[i] != keys[j])
  }

  function PrintMember(v: Value, key: Str): string
    requires v.Object? && AllFinite(v) && key in v.fields
    decreases v, 0, 0
  {
    Quote(key) + ":" + Print(v.fields[key])
  }

  function PrintMembers(v: Value, keys: seq<Str>): string
    requires KeysOf(v, keys)
    decreases v, 1, |keys|
  {
    if keys == [] then ""
    else if |keys| == 1 then PrintMember(v, keys[0])
    else PrintMember(v, keys[0]) + "," + PrintMembers(v, keys[1..])
  }

  /** The longest prefix made of number characters. */
  function NumberPrefix(s: string): (n: nat)
    ensures n <= |s|
  {
    if s != [] && IsNumberChar(s[0]) then 1 + NumberPrefix(s[1..]) else 0
  }

  function ParseNumber(t: string): Option<Value> {
    if t != [] && AllDigits(t) then Some(Int(NatOf(t)))
    else if |t| > 1 && t[0] == '-' && AllDigits(t[1..]) then Some(Int(0 - NatOf(t[1..])))
    else if IsFloatRepr(t) then Some(Real(Finite(t)))
    else None
  }

  /** A word or a number. */
  function ParseScalar(s: string): (r: Option<(Value, string)>)
    ensures r.Some? ==> |r.value.1| < |s|
  {
    if StartsWith(s, "null") then Some((Null, s[4..]))
    else if StartsWith(s, "true") then Some((Bool(true), s[4..]))
    else if StartsWith(s, "false") then Some((Bool(false), s[5..]))
    else
      var n := NumberPrefix(s);
      var t := ParseNumber(s[..n]);
      if n == 0 || t.None? then None else Some((t.value, s[n..]))
  }

  function ParseValue(s: string): (r: Option<(Value, string)>)
    ensures r.Some? ==> |r.value.1| < |s|
    decreases |s|, 1
  {
    if s == [] then None
    else if s[0] == '\"' then
      var t := ParseChars(s[1..]);
      if t.None? then None else Some((String(t.value.0), t.value.1))
    else if s[0] == '[' then
      if |s| >= 2 && s[1] == ']' then Some((Array([]), s[2..]))
      else
        var t := ParseItems(s[1..]);
        if t.None? then None else Some((Array(t.value.0), t.value.1))
    else if s[0] == '{' then
      if |s| >= 2 && s[1] == '}' then Some((Object(map[]), s[2..]))
      else
        var t := ParseMembers(s[1..]);
        if t.None? then None else Some((Object(t.value.0), t.value.1))
    else ParseScalar(s)
  }

  /** One or more elements up to and including the closing bracket. */
  function ParseItems(s: string): (r: Option<(seq<Value>, string)>)
    ensures r.Some? ==> |r.value.1| < |s|
    decreases |s|, 2
  {
    var head := ParseValue(s);
    if head.None? || head.value.1 == [] then None
    else if head.value.1[0] == ']' then Some(([head.value.0], head.value.1[1..]))
    else if head.value.1[0] != ',' then None
    else
      var tail := ParseItems(head.value.1[1..]);
      if tail.None? then None else Some(([head.value.0] + tail.value.0, tail.value.1))
  }

  /** One `"key":value` pair. */
  function ParseMember(s: string): (r: Option<((Str, Value), string)>)
    ensures r.Some? ==> |r.value.1| < |s|
    decreases |s|, 0
  {
    if s == [] || s[0] != '\"' then None
    else
      var key := ParseChars(s[1..]);
      if key.None? || key.value.1 == [] || key.value.1[0] != ':' then None
      else
        var value := ParseValue(key.value.1[1..]);
        if value.None? then None else Some(((key.value.0, value.value.0), value.value.1))
  }

  /** One or more members up to and including the closing brace; a repeated key keeps its last value. */
  function ParseMembers(s: string): (r: Option<(map<Str, Value>, string)>)
    ensures r.Some? ==> |r.value.1| < |s|
    decreases |s|, 2
  {
    var head := ParseMember(s);
    if head.None? || head.value.1 == [] then None
    else
      var one := map[head.value.0.0 := head.value.0.1];
      if head.value.1[0] == '}' then Some((one, head.value.1[1..]))
      else if head.value.1[0] != ',' then None
      else
        var tail := ParseMembers(head.value.1[1..]);
        if tail.None? then None else Some((one + tail.value.0, tail.value.1))
  }

  /** A text that cannot prolong a number printed before it. */
  predicate Stops(rest: string) { rest == [] || !IsNumberChar(rest[0]) }

  lemma {:induction false} NumberPrefixOf(t: string, rest: string)
    requires forall i :: 0 <= i < |t| ==> IsNumberChar(t[i])
    requires Stops(rest)
    ensures NumberPrefix(t + rest) == |t|
  {
    if t == [] {
      assert t + rest == rest;
    } else {
      NumberPrefixOf(t[1..], rest);
      assert (t + rest)[1..] == t[1..] + rest;
    }
  }

  lemma NumberParses(t: string, rest: string)
    requires t != [] && (IsDigit(t[0]) || t[0] == '-') && Stops(rest)
    requires forall i :: 0 <= i < |t| ==> IsNumberChar(t[i])
    ensures ParseValue(t + rest) == (var v := ParseNumber(t); if v.None? then None else Some((v.value, rest)))
  {
    var w := t + rest;
    NumberPrefixOf(t, rest);
    assert w[..|t|] == t && w[|t|..] == rest && w[0] == t[0];
    NotAWord(w);
    ScalarOf(w);
  }

  lemma NotAWord(w: string)
    requires w != [] && (IsDigit(w[0]) || w[0] == '-')
    ensures !StartsWith(w, "null") && !StartsWith(w, "true") && !StartsWith(w, "false")
  {
    assert "null"[0] == 'n' && "true"[0] == 't' && "false"[0] == 'f';
    assert forall k: nat :: 0 < k <= |w| ==> w[..k][0] == w[0];
  }

  lemma ScalarOf(w: string)
    requires w != [] && w[0] != '\"' && w[0] != '[' && w[0] != '{'
    ensures ParseValue(w) == ParseScalar(w)
  {
  }

  lemma IntParses(n: int, rest: string)
    requires Stops(rest)
    ensures ParseValue(IntText(n) + rest) == Some((Int(n), rest))
  {
    var t := IntText(n);
    NatOfDigits(if n < 0 then -n else n);
    if n < 0 { assert t[1..] == Digits(-n); }
    NumberParses(t, rest);
  }

  lemma FloatParses(t: FloatRepr, rest: string)
    requires Stops(rest)
    ensures ParseValue(t + rest) == Some((Real(Finite(t)), rest))
  {
    NumberParses(t, rest);
    var i :| 0 <= i < |t| && (t[i] == '.' || t[i] == 'e');
    assert !AllDigits(t);
    if |t| > 1 && t[0] == '-' { assert i > 0 && t[1..][i - 1] == t[i]; }
  }

  lemma WordParses(v: Value, rest: string)
    requires v.Null? || v.Bool?
    ensures ParseValue(Print(v) + rest) == Some((v, rest))
  {
    var w := Print(v);
    assert (w + rest)[..|w|] == w && (w + rest)[|w|..] == rest;
    assert (w + rest)[0] == w[0];
  }

  lemma StringParses(s: Str, rest: string)
    ensures ParseValue(Quote(s) + rest) == Some((String(s), rest))
  {
    QuoteParses(s, rest);
  }

  lemma FirstChar(v: Value)
    requires AllFinite(v)
    ensures Print(v) != [] && Print(v)[0] != ']' && Print(v)[0] != '}' && Print(v)[0] != ','
  {
    if v.Int? && v.n >= 0 { assert IsDigit(Digits(v.n)[0]); }
  }

  /** Reading a canonical text, followed by anything that cannot prolong a number, gives the value
      and leaves the rest. */
  lemma {:induction false} PrintParses(v: Value, rest: string)
    requires AllFinite(v) && Stops(rest)
    ensures ParseValue(Print(v) + rest) == Some((v, rest))
    decreases v, 2, 0
  {
    match v
    case Null => WordParses(v, rest);
    case Bool(_) => WordParses(v, rest);
    case Int(n) => IntParses(n, rest);
    case Real(f) => FloatParses(f.repr, rest);
    case String(s) => StringParses(s, rest);
    case Array(items) => ArrayParses(v, rest);
    case Object(fields) => ObjectParses(v, rest);
  }

  lemma OpenBracket(s: string)
    requires s != []
    ensures ParseValue("[" + s) ==
            if s[0] == ']' then Some((Array([]), s[1..]))
            else var t := ParseItems(s); if t.None? then None else Some((Array(t.value.0), t.value.1))
  {
    var w := "[" + s;
    assert w[0] == '[' && w[1] == s[0] && w[1..] == s && w[2..] == s[1..];
  }

  lemma OpenBrace(s: string)
    requires s != []
    ensures ParseValue("{" + s) ==
            if s[0] == '}' then Some((Object(map[]), s[1..]))
            else var t := ParseMembers(s); if t.None? then None else Some((Object(t.value.0), t.value.1))
  {
    var w := "{" + s;
    assert w[0] == '{' && w[1] == s[0] && w[1..] == s && w[2..] == s[1..];
  }

  lemma {:induction false} ArrayParses(v: Value, rest: string)
    requires v.Array? && AllFinite(v)
    ensures ParseValue(Print(v) + rest) == Some((v, rest))
    decreases v, 1, |v.items| + 1
  {
    var body := PrintItems(v, v.items) + ("]" + rest);
    ArrayText(v);
    assert "[" + PrintItems(v, v.items) + "]" + rest == "[" + body;
    if v.items == [] {
      NoItems(rest);
    } else {
      ItemsFirst(v, v.items);
      ItemsParse(v, v.items, rest);
      ArrayBody(body, v.items, rest);
    }
  }

  lemma ArrayText(v: Value)
    requires v.Array? && AllFinite(v)
    ensures ItemsOf(v, v.items) && Print(v) == "[" + PrintItems(v, v.items) + "]"
  {
    assert v.items == v.items[0..];
  }

  lemma NoItems(rest: string)
    ensures ParseValue("[" + ("" + ("]" + rest))) == Some((Array([]), rest))
  {
    assert "" + ("]" + rest) == "]" + rest && ("]" + rest)[1..] == rest;
    OpenBracket("]" + rest);
  }

  lemma ItemsFirst(v: Value, items: seq<Value>)
    requires ItemsOf(v, items) && items != []
    ensures PrintItems(v, items) != [] && PrintItems(v, items)[0] != ']'
  {
    assert items[0] in v.items;
    FirstChar(items[0]);
  }

  lemma ArrayBody(body: string, items: seq<Value>, rest: string)
    requires body != [] && body[0] != ']' && ParseItems(body) == Some((items, rest))
    ensures ParseValue("[" + body) == Some((Array(items), rest))
  {
    OpenBracket(body);
  }

  lemma ItemsEnd(first: string, value: Value, rest: string)
    requires ParseValue(first + ("]" + rest)) == Some((value, "]" + rest))
    ensures ParseItems(first + ("]" + rest)) == Some(([value], rest))
  {
    assert ("]" + rest)[1..] == rest;
  }

  lemma ItemsStep(first: string, value: Value, more: string, items: seq<Value>, rest: string)
    requires ParseValue(first + ("," + more)) == Some((value, "," + more))
    requires ParseItems(more) == Some((items, rest))
    ensures ParseItems(first + ("," + more)) == Some(([value] + items, rest))
  {
    assert ("," + more)[1..] == more;
  }

  lemma ItemsText(v: Value, items: seq<Value>, rest: string)
    requires ItemsOf(v, items) && |items| > 1
    ensures PrintItems(v, items) + ("]" + rest) ==
            Print(items[0]) + ("," + (PrintItems(v, items[1..]) + ("]" + rest)))
  {
  }

  lemma ItemsLast(v: Value, items: seq<Value>, rest: string)
    requires ItemsOf(v, items) && |items| == 1
    requires ParseValue(Print(items[0]) + ("]" + rest)) == Some((items[0], "]" + rest))
    ensures ParseItems(PrintItems(v, items) + ("]" + rest)) == Some((items, rest))
  {
    ItemsEnd(Print(items[0]), items[0], rest);
    assert items == [items[0]];
  }

  lemma ItemsMore(v: Value, items: seq<Value>, rest: string, more: string)
    requires ItemsOf(v, items) && |items| > 1 && more == PrintItems(v, items[1..]) + ("]" + rest)
    requires ParseValue(Print(items[0]) + ("," + more)) == Some((items[0], "," + more))
    requires ParseItems(more) == Some((items[1..], rest))
    ensures ParseItems(PrintItems(v, items) + ("]" + rest)) == Some((items, rest))
  {
    ItemsText(v, items, rest);
    ItemsStep(Print(items[0]), items[0], more, items[1..], rest);
    assert items == [items[0]] + items[1..];
  }

  lemma {:induction false} ItemsParse(v: Value, items: seq<Value>, rest: string)
    requires ItemsOf(v, items) && items != []
    ensures ParseItems(PrintItems(v, items) + ("]" + rest)) == Some((items, rest))
    decreases v, 1, |items|
  {
    assert items[0] in v.items;
    if |items| == 1 {
      PrintParses(items[0], "]" + rest);
      ItemsLast(v, items, rest);
    } else {
      var more := PrintItems(v, items[1..]) + ("]" + rest);
      PrintParses(items[0], "," + more);
      ItemsParse(v, items[1..], rest);
      ItemsMore(v, items, rest, more);
    }
  }

  lemma ObjectBody(body: string, fields: map<Str, Value>, rest: string)
    requires body != [] && body[0] != '}' && ParseMembers(body) == Some((fields, rest))
    ensures ParseValue("{" + body) == Some((Object(fields), rest))
  {
    OpenBrace(body);
  }

  lemma NoMembers(v: Value, rest: string)
    requires v.Object? && AllFinite(v) && SortedKeys(v.fields.Keys) == []
    ensures ParseValue(Print(v) + rest) == Some((v, rest))
  {
    assert Print(v) + rest == "{" + ("}" + rest);
    OpenBrace("}" + rest);
    assert ("}" + rest)[1..] == rest;
    assert v.fields.Keys == {};
    assert v.fields == map[];
  }

  lemma AllRestricted(v: Value, keys: seq<Str>)
    requires v.Object? && AllFinite(v) && keys == SortedKeys(v.fields.Keys)
    ensures Restricted(v, keys) == v.fields
  {
  }

  lemma ObjectText(v: Value, rest: string)
    requires v.Object? && AllFinite(v)
    ensures Print(v) + rest == "{" + (PrintMembers(v, SortedKeys(v.fields.Keys)) + ("}" + rest))
  {
    var members := PrintMembers(v, SortedKeys(v.fields.Keys));
    assert "{" + members + "}" + rest == "{" + (members + ("}" + rest));
  }

  lemma {:induction false} ObjectParses(v: Value, rest: string)
    requires v.Object? && AllFinite(v)
    ensures ParseValue(Print(v) + rest) == Some((v, rest))
    decreases v, 1, |v.fields| + 1
  {
    var keys := SortedKeys(v.fields.Keys);
    if keys == [] {
      NoMembers(v, rest);
    } else {
      var body := PrintMembers(v, keys) + ("}" + rest);
      ObjectText(v, rest);
      MembersFirst(v, keys);
      MembersParse(v, keys, rest);
      ObjectBody(body, Restricted(v, keys), rest);
      AllRestricted(v, keys);
    }
  }

  lemma MembersFirst(v: Value, keys: seq<Str>)
    requires KeysOf(v, keys) && keys != []
    ensures PrintMembers(v, keys) != [] && PrintMembers(v, keys)[0] == '\"'
  {
    assert PrintMember(v, keys[0])[0] == '\"';
  }

  lemma {:induction false} MemberParses(v: Value, key: Str, rest: string)
    requires v.Object? && AllFinite(v) && key in v.fields && Stops(rest)
    ensures ParseMember(PrintMember(v, key) + rest) == Some(((key, v.fields[key]), rest))
    decreases v, 0, 0
  {
    var value := Print(v.fields[key]) + rest;
    assert PrintMember(v, key) + rest == Quote(key) + (":" + value);
    QuoteParses(key, ":" + value);
    PrintParses(v.fields[key], rest);
    MemberOf(Quote(key) + (":" + value), key, value, v.fields[key], rest);
  }

  lemma MemberOf(s: string, key: Str, text: string, value: Value, rest: string)
    requires s != [] && s[0] == '\"' && ParseChars(s[1..]) == Some((key, ":" + text))
    requires ParseValue(text) == Some((value, rest))
    ensures ParseMember(s) == Some(((key, value), rest))
  {
    assert (":" + text)[1..] == text;
  }

  lemma {:induction false} MembersParse(v: Value, keys: seq<Str>, rest: string)
    requires KeysOf(v, keys) && keys != []
    ensures ParseMembers(PrintMembers(v, keys) + ("}" + rest)) == Some((Restricted(v, keys), rest))
    decreases v, 1, |keys|
  {
    if |keys| == 1 {
      MemberParses(v, keys[0], "}" + rest);
      assert Restricted(v, keys) == map[keys[0] := v.fields[keys[0]]];
    } else {
      var more := PrintMembers(v, keys[1..]) + ("}" + rest);
      assert PrintMembers(v, keys) + ("}" + rest) == PrintMember(v, keys[0]) + ("," + more);
      MemberParses(v, keys[0], "," + more);
      MembersParse(v, keys[1..], rest);
      MembersSplit(v, keys);
      MembersStep(PrintMember(v, keys[0]), keys[0], v.fields[keys[0]], more);
    }
  }

  lemma MembersStep(member: string, key: Str, value: Value, more: string)
    requires ParseMember(member + ("," + more)) == Some(((key, value), "," + more))
    ensures ParseMembers(member + ("," + more)) ==
            var tail := ParseMembers(more);
            if tail.None? then None else Some((map[key := value] + tail.value.0, tail.value.1))
  {
    assert ("," + more)[1..] == more;
  }

  ghost function Restricted(v: Value, keys: seq<Str>): map<Str, Value>
    requires KeysOf(v, keys)
  {
    map k | k in keys :: v.fields[k]
  }

  lemma MembersSplit(v: Value, keys: seq<Str>)
    requires KeysOf(v, keys) && keys != []
    ensures Restricted(v, keys) == map[keys[0] := v.fields[keys[0]]] + Restricted(v, keys[1..])
  {
    assert forall k :: k in keys <==> k == keys[0] || k in keys[1..];
  }

  predicate Ascii(s: string) { forall i :: 0 <= i < |s| ==> ' ' <= s[i] <= '~' }

  lemma AsciiPlus(a: string, b: string)
    requires Ascii(a) && Ascii(b)
    ensures Ascii(a + b)
  {
  }

  lemma EscapeCharAscii(c: int)
    requires 0 <= c <= 0x10FFFF
    ensures Ascii(EscapeChar(c))
  {
    if c < 0x10000 {
      assert Ascii(Unit(c));
    } else {
      assert Ascii(Unit(High(c))) && Ascii(Unit(Low(c)));
      AsciiPlus(Unit(High(c)), Unit(Low(c)));
    }
  }

  lemma {:induction false} EscapeAscii(s: CodePoints)
    ensures Ascii(Escape(s))
  {
    if s != [] {
      EscapeCharAscii(s[0]);
      EscapeAscii(s[1..]);
      AsciiPlus(EscapeChar(s[0]), Escape(s[1..]));
    }
  }

  lemma QuoteAscii(s: CodePoints)
    ensures Ascii(Quote(s))
  {
    EscapeAscii(s);
    AsciiPlus("\"", Escape(s));
    AsciiPlus("\"" + Escape(s), "\"");
  }

  lemma Bracketed(open: string, body: string, close: string)
    requires Ascii(open) && Ascii(body) && Ascii(close)
    ensures Ascii(open + body + close)
  {
    AsciiPlus(open, body);
    AsciiPlus(open + body, close);
  }

  lemma ScalarAscii(v: Value)
    requires !v.Array? && !v.Object? && AllFinite(v)
    ensures Ascii(Print(v))
  {
    if v.String? { QuoteAscii(v.s); }
  }

  /** Canonical text is printable ASCII, so encoding it as UTF-8 changes nothing and it holds no newline. */
  lemma {:induction false} PrintAscii(v: Value)
    requires AllFinite(v)
    ensures Ascii(Print(v))
    decreases v, 1, 0
  {
    if v.Array? {
      ArrayText(v);
      ItemsAscii(v, v.items);
      Bracketed("[", PrintItems(v, v.items), "]");
    } else if v.Object? {
      MembersAscii(v, SortedKeys(v.fields.Keys));
      Bracketed("{", PrintMembers(v, SortedKeys(v.fields.Keys)), "}");
    } else {
      ScalarAscii(v);
    }
  }

  lemma {:induction false} ItemsAscii(v: Value, items: seq<Value>)
    requires ItemsOf(v, items)
    ensures Ascii(PrintItems(v, items))
    decreases v, 0, |items|
  {
    if items != [] {
      PrintAscii(items[0]);
      if |items| > 1 {
        ItemsAscii(v, items[1..]);
        Bracketed(Print(items[0]), ",", PrintItems(v, items[1..]));
      }
    }
  }

  lemma {:induction false} MembersAscii(v: Value, keys: seq<Str>)
    requires KeysOf(v, keys)
    ensures Ascii(PrintMembers(v, keys))
    decreases v, 0, |keys|
  {
    if keys != [] {
      QuoteAscii(keys[0]);
      PrintAscii(v.fields[keys[0]]);
      Bracketed(Quote(keys[0]), ":", Print(v.fields[keys[0]]));
      if |keys| > 1 {
        MembersAscii(v, keys[1..]);
        Bracketed(PrintMember(v, keys[0]), ",", PrintMembers(v, keys[1..]));
      }
    }
  }

  /** Canonical text determines the value. */
  lemma PrintInjective(a: Value, b: Value)
    requires AllFinite(a) && AllFinite(b)
    ensures Print(a) == Print(b) ==> a == b
  {
    PrintParses(a, "");
    PrintParses(b, "");
    assert Print(a) + "" == Print(a) && Print(b) + "" == Print(b);
  }

  // ---- numbers ---------------------------------------------------------------------------------------------

  lemma {:induction false} NoLeadingZero(n: nat)
    ensures n > 0 ==> Digits(n)[0] != '0'
  {
    if n >= 10 { NoLeadingZero(n / 10); }
  }

  /** An integer is printed with a sign only when it is negative, and without leading zeros. */
  lemma IntTextExactly(n: int)
    ensures IntText(n)[0] == '-' <==> n < 0
    ensures n >= 0 ==> AllDigits(IntText(n)) && NatOf(IntText(n)) == n
    ensures n < 0 ==> AllDigits(IntText(n)[1..]) && NatOf(IntText(n)[1..]) == -n && IntText(n)[1] != '0'
    ensures n > 0 ==> IntText(n)[0] != '0'
  {
    if n >= 0 {
      NatOfDigits(n);
      NoLeadingZero(n);
    } else {
      NatOfDigits(-n);
      NoLeadingZero(-n);
      assert IntText(n)[1..] == Digits(-n);
    }
  }

  /** Spellings of floats as `repr` gives them. */
  lemma FloatSpellings()
    ensures IsFloatRepr("1.5") && IsFloatRepr("-0.25") && IsFloatRepr("1e+16") && IsFloatRepr("1e-05")
    ensures !IsFloatRepr("15") && !IsFloatRepr("nan") && !IsFloatRepr("")
  {
    assert "1e+16"[1] == 'e' && "1e-05"[1] == 'e' && "1.5"[1] == '.' && "-0.25"[2] == '.';
    assert !IsNumberChar("nan"[0]);
  }
}
