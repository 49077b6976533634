/** Following continuation tokens to the end, or failing: an AWS list is never cut short. */
module Pagination {
  import opened Wrappers

  /** A hard cap: a longer list is an error, not a shorter list. */
  const MAX_LIST_PAGES: nat := 200

  /** The names under which a continuation token may come back, in the order they are tried. */
  const CONTINUATION_KEYS: seq<string> := ["NextToken", "NextMarker", "Marker", "ContinuationToken"]

  datatype Error = InvalidResponse | TooManyPages

  /** One response: not a mapping, or its item list (each item a mapping or not) if it is a list, and
      the fields that hold text. */
  datatype Response<T> = NotAMapping | Response(page: Option<seq<Option<T>>>, texts: map<string, string>)

  /** The remote side: what the `i`-th request, sent with a token, is answered. */
  type Remote<T> = (nat, Option<string>) -> Response<T>

  function FirstToken(texts: map<string, string>, keys: seq<string>): Option<string> {
    if keys == [] then None
    else if keys[0] in texts && texts[keys[0]] != "" then Some(texts[keys[0]])
    else FirstToken(texts, keys[1..])
  }

  function Continuation<T>(r: Response<T>): Option<string>
    requires r.Response?
  {
    FirstToken(r.texts, CONTINUATION_KEYS)
  }

  /** The items that are mappings, in order. */
  function Kept<T>(page: seq<Option<T>>): seq<T> {
    if page == [] then []
    else Kept(page[..|page| - 1]) + (match page[|page| - 1] case Some(x) => [x] case None => [])
  }

  method Paginate<T>(call: Remote<T>) returns (r: Result<seq<T>, Error>)
    ensures forall items :: r == Ok(items) <==> Lists(call, items)
    ensures r == Err(InvalidResponse) <==> exists n: nat :: n < MAX_LIST_PAGES && Reached(call, n) && !Valid(call, n)
  {
    var items: seq<T> := [];
    var token: Option<string> := None;
    var i := 0;
    while i < MAX_LIST_PAGES
      invariant i <= MAX_LIST_PAGES
      invariant Reached(call, i) && token == TokenAt(call, i)
      invariant items == Gathered(call, i)
    {
      var response := call(i, token);
      if response.NotAMapping? || response.page.None? {
        assert !Valid(call, i);
        ReachedOnce(call, i);
        return Err(InvalidResponse);
      }
      assert Valid(call, i);
      items := items + Kept(response.page.value);
      token := Continuation(response);
      i := i + 1;
      if token.None? {
        ListsOnce(call, i);
        return Ok(items);
      }
    }
    ListsNever(call);
    r := Err(TooManyPages);
  }

  // ---- what a complete list is -----------------------------------------------------------------------

  /** The token sent with request `n` when all responses before it were lists that continued. */
  function TokenAt<T>(call: Remote<T>, n: nat): Option<string> {
    if n == 0 then None
    else
      var r := call(n - 1, TokenAt(call, n - 1));
      if r.Response? then Continuation(r) else None
  }

  predicate Valid<T>(call: Remote<T>, n: nat) {
    var r := call(n, TokenAt(call, n));
    r.Response? && r.page.Some?
  }

  /** Requests 0 to n - 1 were answered with lists and each promised more. */
  predicate Reached<T>(call: Remote<T>, n: nat) {
    n == 0 || (Reached(call, n - 1) && Valid(call, n - 1) && TokenAt(call, n).Some?)
  }

  /** The items of pages 0 to n - 1, in order. */
  function Gathered<T>(call: Remote<T>, n: nat): seq<T> {
    if n == 0 then []
    else
      var r := call(n - 1, TokenAt(call, n - 1));
      Gathered(call, n - 1) + (if r.Response? && r.page.Some? then Kept(r.page.value) else [])
  }

  /** The chain of pages ends with page `n - 1`. */
  predicate EndsAfter<T>(call: Remote<T>, n: nat) {
    n >= 1 && Reached(call, n - 1) && Valid(call, n - 1) && TokenAt(call, n).None?
  }

  /** `items` is the whole list: every page of a chain that ends within the cap, nothing less. */
  ghost predicate Lists<T>(call: Remote<T>, items: seq<T>) {
    exists n: nat :: n <= MAX_LIST_PAGES && EndsAfter(call, n) && items == Gathered(call, n)
  }

  lemma {:induction false} ReachedBefore<T>(call: Remote<T>, m: nat, n: nat)
    requires m <= n && Reached(call, n)
    ensures Reached(call, m) && (m < n ==> Valid(call, m) && TokenAt(call, m + 1).Some?)
    decreases n
  {
    if m < n { ReachedBefore(call, m, n - 1); }
  }

  lemma EndUnique<T>(call: Remote<T>, m: nat, n: nat)
    requires EndsAfter(call, m) && EndsAfter(call, n)
    ensures m == n
  {
    if m < n { ReachedBefore(call, m, n - 1); } else if n < m { ReachedBefore(call, n, m - 1); }
  }

  lemma ListsOnce<T>(call: Remote<T>, n: nat)
    requires EndsAfter(call, n) && n <= MAX_LIST_PAGES
    ensures forall items :: Lists(call, items) <==> items == Gathered(call, n)
    ensures forall k: nat :: Reached(call, k) ==> Valid(call, k)
  {
    forall m: nat | EndsAfter(call, m) ensures m == n { EndUnique(call, m, n); }
    forall k: nat | Reached(call, k) ensures Valid(call, k) {
      if k >= n { ReachedBefore(call, n - 1, k); } else { ReachedBefore(call, k, n - 1); }
    }
  }

  lemma ReachedOnce<T>(call: Remote<T>, i: nat)
    requires Reached(call, i) && !Valid(call, i)
    ensures forall items :: !Lists(call, items)
  {
    forall m: nat ensures !EndsAfter(call, m) {
      if EndsAfter(call, m) {
        if m <= i { ReachedBefore(call, m - 1, i); ReachedBefore(call, m, i); } else { ReachedBefore(call, i, m - 1); }
      }
    }
  }

  lemma ListsNever<T>(call: Remote<T>)
    requires Reached(call, MAX_LIST_PAGES)
    ensures forall items :: !Lists(call, items)
    ensures forall n: nat :: n < MAX_LIST_PAGES && Reached(call, n) ==> Valid(call, n)
  {
    forall m: nat | m <= MAX_LIST_PAGES ensures !EndsAfter(call, m) {
      if m > 0 { ReachedBefore(call, m - 1, MAX_LIST_PAGES); }
    }
    forall n: nat | n < MAX_LIST_PAGES ensures Valid(call, n) { ReachedBefore(call, n, MAX_LIST_PAGES); }
  }

  // ---- tokens and the cap ----------------------------------------------------------------------------------

  /** The field of a response holds a token that is not empty. */
  ghost predicate Holds(texts: map<string, string>, key: string, token: string) {
    key in texts && texts[key] == token && |token| > 0
  }

  ghost predicate Silent(texts: map<string, string>, key: string) { forall t :: !Holds(texts, key, t) }

  /** Four names are tried in this order; the first that holds a token gives it. */
  lemma ContinuationExactly<T>(r: Response<T>, token: string)
    requires r.Response?
    ensures Continuation(r) == Some(token) <==>
            || Holds(r.texts, "NextToken", token)
            || (Silent(r.texts, "NextToken") && Holds(r.texts, "NextMarker", token))
            || (Silent(r.texts, "NextToken") && Silent(r.texts, "NextMarker") && Holds(r.texts, "Marker", token))
            || (&& Silent(r.texts, "NextToken") && Silent(r.texts, "NextMarker") && Silent(r.texts, "Marker")
                && Holds(r.texts, "ContinuationToken", token))
  {
    FourTokens(r.texts, CONTINUATION_KEYS[0], CONTINUATION_KEYS[1], CONTINUATION_KEYS[2], CONTINUATION_KEYS[3], token);
  }

  lemma FourTokens(texts: map<string, string>, a: string, b: string, c: string, d: string, token: string)
    ensures FirstToken(texts, [a, b, c, d]) == Some(token) <==>
            || Holds(texts, a, token)
            || (Silent(texts, a) && Holds(texts, b, token))
            || (Silent(texts, a) && Silent(texts, b) && Holds(texts, c, token))
            || (Silent(texts, a) && Silent(texts, b) && Silent(texts, c) && Holds(texts, d, token))
  {
    assert [a, b, c, d][1..] == [b, c, d] && [b, c, d][1..] == [c, d] && [c, d][1..] == [d] && [d][1..] == [];
    TokenStep(texts, [a, b, c, d], token);
    TokenStep(texts, [b, c, d], token);
    TokenStep(texts, [c, d], token);
    TokenStep(texts, [d], token);
  }

  lemma TokenStep(texts: map<string, string>, keys: seq<string>, token: string)
    requires keys != []
    ensures FirstToken(texts, keys) == Some(token) <==>
            Holds(texts, keys[0], token) || (Silent(texts, keys[0]) && FirstToken(texts, keys[1..]) == Some(token))
  {
    if !Silent(texts, keys[0]) { var t :| Holds(texts, keys[0], t); }
    if keys[0] in texts && texts[keys[0]] != "" { assert Holds(texts, keys[0], texts[keys[0]]); }
  }

  /** A chain that ends with one of its first two hundred pages is listed; a longer one is not. */
  lemma CapExactly<T>(call: Remote<T>, n: nat)
    requires EndsAfter(call, n)
    ensures (exists items :: Lists(call, items)) <==> n <= 200
    ensures n <= 200 ==> Lists(call, Gathered(call, n))
  {
    forall m: nat | EndsAfter(call, m) ensures m == n { EndUnique(call, m, n); }
    if n <= 200 { assert Lists(call, Gathered(call, n)); }
    if items :| Lists(call, items) {
      var m: nat :| m <= MAX_LIST_PAGES && EndsAfter(call, m) && items == Gathered(call, m);
      assert m == n;
    }
  }
}
