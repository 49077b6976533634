/** Walking stored results page by page with the last sort key as cursor.

The base64 spelling of a cursor is not part of this model: a cursor is the sort key it spells, and the
blank cursor, which spells the empty key, is refused when it is read.
 */
module CandidatePages {
  import opened Wrappers

  datatype Error = InvalidCursor | UnknownCursor

  datatype Page<T> = Page(window: seq<T>, next: Option<string>)

  /** The first item with this key. */
  function FirstIndex<T>(items: seq<T>, key: T -> string, k: string): (r: Option<nat>)
    ensures r.Some? ==>
              && r.value < |items| && key(items[r.value]) == k
              && forall j :: 0 <= j < r.value ==> key(items[j]) != k
    ensures r.None? ==> forall j :: 0 <= j < |items| ==> key(items[j]) != k
  {
    if items == [] then None
    else if key(items[0]) == k then Some(0)
    else match FirstIndex(items[1..], key, k) case Some(i) => Some(i + 1) case None => None
  }

  function Start<T>(items: seq<T>, key: T -> string, cursor: Option<string>): (r: Result<nat, Error>)
    ensures r.Ok? ==> r.value <= |items|
  {
    if cursor.None? then Ok(0)
    else if cursor.value == "" then Err(InvalidCursor)
    else match FirstIndex(items, key, cursor.value) case Some(i) => Ok(i + 1) case None => Err(UnknownCursor)
  }

  function GetPage<T>(items: seq<T>, key: T -> string, cursor: Option<string>, size: nat): Result<Page<T>, Error> {
    var start := Start(items, key, cursor);
    if start.Err? then Err(start.reason)
    else
      var s := start.value;
      var window := items[s..Min(s + size, |items|)];
      if s + size >= |items| || window == [] then Ok(Page(window, None))
      else Ok(Page(window, Some(key(window[|window| - 1]))))
  }

  /** The pages from a cursor to the final one, concatenated, if that takes at most `m` pages. */
  function Walk<T>(items: seq<T>, key: T -> string, cursor: Option<string>, size: nat, m: nat): Option<seq<T>>
    decreases m
  {
    if m == 0 then None
    else match GetPage(items, key, cursor, size)
      case Err(_) => None
      case Ok(Page(window, None)) => Some(window)
      case Ok(Page(window, next)) =>
        match Walk(items, key, next, size, m - 1) case Some(rest) => Some(window + rest) case None => None
  }

  /** The cursor made from item `last` leads directly behind it. */
  predicate LeadsOn<T>(items: seq<T>, key: T -> string, last: nat)
    requires last < |items|
  {
    key(items[last]) != "" && forall j :: 0 <= j < last ==> key(items[j]) != key(items[last])
  }

  /** From index `s` on, the last item of every page but the final one has a non-empty key that no earlier
      item has. */
  predicate PagesLineUp<T>(items: seq<T>, key: T -> string, size: nat, s: nat)
    requires size > 0
    decreases |items| - s
  {
    s + size >= |items| || (LeadsOn(items, key, s + size - 1) && PagesLineUp(items, key, size, s + size))
  }

  /** A page that is not the last leads on from its last item. */
  lemma InnerPage<T>(items: seq<T>, key: T -> string, cursor: Option<string>, size: nat)
    requires size > 0 && Start(items, key, cursor).Ok? && Start(items, key, cursor).value + size < |items|
    ensures var s := Start(items, key, cursor).value;
            GetPage(items, key, cursor, size) == Ok(Page(items[s..s + size], Some(key(items[s + size - 1]))))
  {
    var s := Start(items, key, cursor).value;
    assert items[s..s + size][size - 1] == items[s + size - 1];
  }

  lemma FinalPage<T>(items: seq<T>, key: T -> string, cursor: Option<string>, size: nat)
    requires size > 0 && Start(items, key, cursor).Ok? && Start(items, key, cursor).value + size >= |items|
    ensures GetPage(items, key, cursor, size) == Ok(Page(items[Start(items, key, cursor).value..], None))
  {
    var s := Start(items, key, cursor).value;
    assert items[s..|items|] == items[s..];
  }

  lemma WalkPage<T>(items: seq<T>, key: T -> string, cursor: Option<string>, size: nat, m: nat, window: seq<T>,
                    next: string)
    requires m > 0 && GetPage(items, key, cursor, size) == Ok(Page(window, Some(next)))
    ensures Walk(items, key, cursor, size, m) ==
            match Walk(items, key, Some(next), size, m - 1) case Some(rest) => Some(window + rest) case None => None
  {
  }

  lemma WalkInner<T>(items: seq<T>, key: T -> string, cursor: Option<string>, size: nat, m: nat, s: nat,
                     next: Option<string>)
    requires size > 0 && m > 0 && Start(items, key, cursor) == Ok(s) && s + size < |items|
    requires next == Some(key(items[s + size - 1]))
    ensures Walk(items, key, cursor, size, m) ==
            match Walk(items, key, next, size, m - 1)
            case Some(rest) => Some(items[s..s + size] + rest)
            case None => None
  {
    InnerPage(items, key, cursor, size);
    WalkPage(items, key, cursor, size, m, items[s..s + size], next.value);
  }

  lemma WalkFinal<T>(items: seq<T>, key: T -> string, cursor: Option<string>, size: nat, m: nat, s: nat)
    requires size > 0 && m > 0 && Start(items, key, cursor) == Ok(s) && s + size >= |items|
    ensures Walk(items, key, cursor, size, m) == Some(items[s..])
  {
    FinalPage(items, key, cursor, size);
  }

  lemma BadCursorStops<T>(items: seq<T>, key: T -> string, cursor: Option<string>, size: nat, m: nat)
    ensures Start(items, key, cursor).Err? ==> Walk(items, key, cursor, size, m).None?
  {
  }

  /** The next page starts behind the boundary, or further back when its key occurs earlier. */
  lemma NextStart<T>(items: seq<T>, key: T -> string, last: nat)
    requires last < |items| && key(items[last]) != ""
    ensures var r := Start(items, key, Some(key(items[last])));
            && r.Ok? && r.value <= last + 1 && (r.value == last + 1 <==> LeadsOn(items, key, last))
  {
  }

  /** In a walk that finishes, every inner page hands over a readable cursor and the rest finishes too. */
  lemma HandsOver<T>(items: seq<T>, key: T -> string, cursor: Option<string>, size: nat, m: nat, s: nat,
                     next: Option<string>)
    requires size > 0 && m > 0 && Start(items, key, cursor) == Ok(s) && s + size < |items|
    requires next == Some(key(items[s + size - 1])) && Walk(items, key, cursor, size, m).Some?
    ensures m > 1 && Walk(items, key, next, size, m - 1).Some? && Start(items, key, next).Ok?
    ensures Walk(items, key, cursor, size, m).value == items[s..s + size] + Walk(items, key, next, size, m - 1).value
  {
    WalkInner(items, key, cursor, size, m, s, next);
    BadCursorStops(items, key, next, size, m - 1);
  }

  lemma LineUpStep<T>(items: seq<T>, key: T -> string, size: nat, s: nat, t: nat)
    requires size > 0 && s + size < |items| && Start(items, key, Some(key(items[s + size - 1]))) == Ok(t)
    ensures t <= s + size && (PagesLineUp(items, key, size, s) <==> t == s + size && PagesLineUp(items, key, size, t))
  {
    NextStart(items, key, s + size - 1);
  }

  lemma Measured<T>(items: seq<T>, s: nat, size: nat, rest: seq<T>, t: nat, lined: bool)
    requires s + size < |items| && t <= s + size
    requires if lined then rest == items[t..] else |rest| > |items| - t
    ensures if t == s + size && lined then items[s..s + size] + rest == items[s..]
            else |items[s..s + size] + rest| > |items| - s
  {
    if t == s + size && lined { assert items[s..] == items[s..s + size] + items[s + size..]; }
  }

  /** What a finished walk from index `s` yields: never too little, and exactly the rest of the items
      only when the pages line up. */
  ghost predicate Measures<T>(items: seq<T>, key: T -> string, size: nat, s: nat, w: seq<T>)
    requires size > 0 && s <= |items|
  {
    if PagesLineUp(items, key, size, s) then w == items[s..] else |w| > |items| - s
  }

  lemma MeasureStep<T>(items: seq<T>, key: T -> string, size: nat, s: nat, t: nat, rest: seq<T>)
    requires size > 0 && s + size < |items| && Start(items, key, Some(key(items[s + size - 1]))) == Ok(t)
    requires Measures(items, key, size, t, rest)
    ensures Measures(items, key, size, s, items[s..s + size] + rest)
  {
    LineUpStep(items, key, size, s, t);
    Measured(items, s, size, rest, t, PagesLineUp(items, key, size, t));
  }

  lemma MeasureEnd<T>(items: seq<T>, key: T -> string, cursor: Option<string>, size: nat, m: nat, s: nat)
    requires size > 0 && m > 0 && Start(items, key, cursor) == Ok(s) && s + size >= |items|
    ensures var walked := Walk(items, key, cursor, size, m);
            walked.Some? && Measures(items, key, size, s, walked.value)
  {
    WalkFinal(items, key, cursor, size, m, s);
  }

  lemma {:induction false} WalkMeasure<T>(items: seq<T>, key: T -> string, cursor: Option<string>, size: nat, m: nat,
                                          s: nat)
    requires size > 0 && m > 0 && Start(items, key, cursor) == Ok(s) && Walk(items, key, cursor, size, m).Some?
    ensures Measures(items, key, size, s, Walk(items, key, cursor, size, m).value)
    decreases m
  {
    if s + size >= |items| {
      MeasureEnd(items, key, cursor, size, m, s);
    } else {
      var next := Some(key(items[s + size - 1]));
      HandsOver(items, key, cursor, size, m, s, next);
      WalkMeasure(items, key, next, size, m - 1, Start(items, key, next).value);
      MeasureStep(items, key, size, s, Start(items, key, next).value, Walk(items, key, next, size, m - 1).value);
    }
  }

  lemma WalkExtends<T>(items: seq<T>, key: T -> string, cursor: Option<string>, size: nat, m: nat, s: nat,
                       next: Option<string>)
    requires size > 0 && m > 0 && Start(items, key, cursor) == Ok(s) && s + size < |items|
    requires next == Some(key(items[s + size - 1])) && Walk(items, key, next, size, m - 1).Some?
    ensures Walk(items, key, cursor, size, m).Some?
  {
    WalkInner(items, key, cursor, size, m, s, next);
  }

  /** Pages that line up are walked to the end. */
  lemma {:induction false} WalkFinishes<T>(items: seq<T>, key: T -> string, cursor: Option<string>, size: nat, s: nat,
                                           m: nat)
    requires size > 0 && Start(items, key, cursor) == Ok(s) && PagesLineUp(items, key, size, s)
    requires m > |items| - s
    ensures Walk(items, key, cursor, size, m).Some?
    decreases m
  {
    if s + size >= |items| {
      WalkFinal(items, key, cursor, size, m, s);
    } else {
      var next := Some(key(items[s + size - 1]));
      NextStart(items, key, s + size - 1);
      WalkFinishes(items, key, next, size, s + size, m - 1);
      WalkExtends(items, key, cursor, size, m, s, next);
    }
  }

  ghost predicate WalksExactly<T>(items: seq<T>, key: T -> string, size: nat) {
    exists m: nat :: Walk(items, key, None, size, m) == Some(items)
  }

  /** The walk from no cursor ends and yields every stored item once and in order exactly when the pages
      line up; an empty or repeated key at a page boundary stops it or sends it back. */
  lemma WalkExactly<T>(items: seq<T>, key: T -> string, size: nat)
    requires size > 0
    ensures WalksExactly(items, key, size) <==> PagesLineUp(items, key, size, 0)
  {
    assert items[0..] == items;
    if PagesLineUp(items, key, size, 0) {
      WalkFinishes(items, key, None, size, 0, |items| + 1);
      WalkMeasure(items, key, None, size, |items| + 1, 0);
    }
    if m: nat :| Walk(items, key, None, size, m) == Some(items) {
      WalkMeasure(items, key, None, size, m, 0);
    }
  }

  lemma {:induction false} DistinctKeysLineUp<T>(items: seq<T>, key: T -> string, size: nat, s: nat)
    requires size > 0
    requires forall i, j :: 0 <= i < j < |items| ==> key(items[i]) != key(items[j])
    requires forall i :: 0 <= i < |items| ==> key(items[i]) != ""
    ensures PagesLineUp(items, key, size, s)
    decreases |items| - s
  {
    if s + size < |items| { DistinctKeysLineUp(items, key, size, s + size); }
  }

  /** With distinct non-empty sort keys every page size walks the whole list. */
  lemma DistinctKeysWalk<T>(items: seq<T>, key: T -> string, size: nat)
    requires size > 0
    requires forall i, j :: 0 <= i < j < |items| ==> key(items[i]) != key(items[j])
    requires forall i :: 0 <= i < |items| ==> key(items[i]) != ""
    ensures WalksExactly(items, key, size)
  {
    DistinctKeysLineUp(items, key, size, 0);
    WalkExactly(items, key, size);
  }

  /** A page whose cursor leads to itself is served for ever. */
  lemma {:induction false} SamePageAgain<T>(items: seq<T>, key: T -> string, cursor: Option<string>, size: nat, m: nat)
    requires cursor.Some? && GetPage(items, key, cursor, size).Ok?
    requires GetPage(items, key, cursor, size).value.next == cursor
    ensures Walk(items, key, cursor, size, m).None?
    decreases m
  {
    if m > 0 { SamePageAgain(items, key, cursor, size, m - 1); }
  }

  /** Three items with one key, one per page: the walk never ends. */
  lemma RepeatedKeyLoops(m: nat)
    ensures Walk([0, 1, 2], (i: int) => "k", None, 1, m).None?
  {
    var items, key := [0, 1, 2], (i: int) => "k";
    assert Start(items, key, Some("k")) == Ok(1);
    InnerPage(items, key, None, 1);
    InnerPage(items, key, Some("k"), 1);
    if m > 0 { SamePageAgain(items, key, Some("k"), 1, m - 1); }
  }

  /** The keys a, b, a, c: the second page starts behind the first a. */
  function Abac(i: int): string { if i == 1 then "b" else if i == 3 then "c" else "a" }

  /** Four items, three per page: the walk ends without an error, and two items come twice. */
  lemma RepeatedKeyRepeats()
    ensures Walk([0, 1, 2, 3], Abac, None, 3, 2) == Some([0, 1, 2, 1, 2, 3])
  {
    var items := [0, 1, 2, 3];
    assert Start(items, Abac, Some("a")) == Ok(1);
    InnerPage(items, Abac, None, 3);
    FinalPage(items, Abac, Some("a"), 3);
    assert items[0..3] == [0, 1, 2] && items[1..] == [1, 2, 3];
    assert Abac(items[2]) == "a";
    assert Walk(items, Abac, Some("a"), 3, 1) == Some([1, 2, 3]);
    assert [0, 1, 2] + [1, 2, 3] == [0, 1, 2, 1, 2, 3];
  }

  // ---- cursors that are refused ----------------------------------------------------------------------------

  /** The empty cursor is invalid; a key that no item has is unknown. */
  lemma StartExactly<T>(items: seq<T>, key: T -> string, cursor: Option<string>)
    ensures Start(items, key, cursor) == Err(InvalidCursor) <==> cursor == Some("")
    ensures Start(items, key, cursor) == Err(UnknownCursor) <==>
            cursor.Some? && cursor.value != "" && forall i :: 0 <= i < |items| ==> key(items[i]) != cursor.value
    ensures forall s: nat :: Start(items, key, cursor) == Ok(s) <==>
              if cursor.None? then s == 0
              else
                && cursor.value != "" && 1 <= s <= |items| && key(items[s - 1]) == cursor.value
                && forall i :: 0 <= i < s - 1 ==> key(items[i]) != cursor.value
  {
  }
}
