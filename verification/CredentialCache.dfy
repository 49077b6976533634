/** The cache of short-lived credentials shared in shape by the App token provider and the read session.

A value is reused while its expiry lies more than the margin ahead; otherwise a new one is fetched, and a
failed fetch leaves the cache as it was.
 */
module CredentialCache {
  import opened Wrappers

  datatype Entry<V> = Entry(value: V, expiresAt: Option<int>)

  datatype Call<V, E> = Call(now: int, fetch: Result<Entry<V>, E>)

  predicate Usable<V>(cached: Option<Entry<V>>, now: int, margin: int) {
    cached.Some? && cached.value.expiresAt.Some? && cached.value.expiresAt.value > now + margin
  }

  /** The cache after one call. */
  function After<V, E>(cached: Option<Entry<V>>, margin: int, c: Call<V, E>): Option<Entry<V>> {
    if Usable(cached, c.now, margin) || c.fetch.Err? then cached else Some(c.fetch.value)
  }

  function Answer<V, E>(cached: Option<Entry<V>>, margin: int, c: Call<V, E>): Result<V, E> {
    if Usable(cached, c.now, margin) then Ok(cached.value.value)
    else if c.fetch.Err? then Err(c.fetch.reason)
    else Ok(c.fetch.value.value)
  }

  class Cache<V(0), E(0)> {
    const margin: int
    var cached: Option<Entry<V>>

    constructor (margin: int)
      ensures this.margin == margin && cached == None
    {
      this.margin := margin;
      cached := None;
    }

    /** One call; `fetch` is what the remote side would answer now, asked only when needed. */
    method Get(c: Call<V, E>) returns (r: Result<V, E>)
      modifies this
      ensures cached == After(old(cached), margin, c)
      ensures r == Answer(old(cached), margin, c)
    {
      if Usable(cached, c.now, margin) { return Ok(cached.value.value); }
      if c.fetch.Err? { return Err(c.fetch.reason); }
      cached := Some(c.fetch.value);
      r := Ok(c.fetch.value.value);
    }
  }

  /** The cache before call `n` of a sequence of calls on a new object. */
  function State<V, E>(margin: int, calls: seq<Call<V, E>>, n: nat): Option<Entry<V>>
    requires n <= |calls|
  {
    if n == 0 then None else After(State(margin, calls, n - 1), margin, calls[n - 1])
  }

  predicate Fetches<V, E>(margin: int, calls: seq<Call<V, E>>, i: nat)
    requires i < |calls|
  {
    !Usable(State(margin, calls, i), calls[i].now, margin)
  }

  /** Call `j` is the last successful fetch before call `n`. */
  ghost predicate LastFetch<V, E>(margin: int, calls: seq<Call<V, E>>, n: nat, j: nat)
    requires n <= |calls|
  {
    && j < n && Fetches(margin, calls, j) && calls[j].fetch.Ok?
    && forall k :: j < k < n && Fetches(margin, calls, k) ==> calls[k].fetch.Err?
  }

  lemma {:induction false} StateSource<V, E>(margin: int, calls: seq<Call<V, E>>, n: nat) returns (j: nat)
    requires n <= |calls| && State(margin, calls, n).Some?
    ensures LastFetch(margin, calls, n, j) && calls[j].fetch.value == State(margin, calls, n).value
  {
    j := n - 1;
    if !Fetches(margin, calls, j) || calls[j].fetch.Err? {
      j := StateSource(margin, calls, n - 1);
    }
  }

  /** Over any sequence of calls: an answer is either fetched by that very call, or it is the value of the
      last successful fetch and still has more than the margin to live. */
  lemma AnswersAreFresh<V, E>(margin: int, calls: seq<Call<V, E>>, i: nat)
    requires i < |calls| && Answer(State(margin, calls, i), margin, calls[i]).Ok?
    ensures var v := Answer(State(margin, calls, i), margin, calls[i]).value;
            if Fetches(margin, calls, i) then calls[i].fetch.Ok? && calls[i].fetch.value.value == v
            else exists j: nat :: LastFetch(margin, calls, i, j) && calls[j].fetch.value.value == v
                                  && Usable(Some(calls[j].fetch.value), calls[i].now, margin)
  {
    if !Fetches(margin, calls, i) { var _ := StateSource(margin, calls, i); }
  }

  /** One fetch serves every call up to the margin before its expiry. */
  lemma {:induction false} OneFetchPerWindow<V, E>(margin: int, calls: seq<Call<V, E>>, j: nat, i: nat)
    requires j < i < |calls| && Fetches(margin, calls, j) && calls[j].fetch.Ok? && calls[j].fetch.value.expiresAt.Some?
    requires forall k :: j < k <= i ==> calls[k].now + margin < calls[j].fetch.value.expiresAt.value
    ensures !Fetches(margin, calls, i) && State(margin, calls, i) == Some(calls[j].fetch.value)
  {
    if i > j + 1 { OneFetchPerWindow(margin, calls, j, i - 1); }
  }

  // ---- when a value is reused ------------------------------------------------------------------------------

  /** A value is reused strictly before its expiry less the margin.  From then on a failing fetch shows, and a value
      without an expiry is never reused. */
  lemma ReusedExactly<V, E>(value: V, expiresAt: int, margin: int, now: int, e: E)
    ensures var cached := Some(Entry(value, Some(expiresAt)));
            && (Answer(cached, margin, Call(now, Err(e))) == Ok(value) <==> now < expiresAt - margin)
            && (Answer(cached, margin, Call(now, Err(e))) == Err(e) <==> expiresAt - now <= margin)
    ensures Answer(Some(Entry(value, None)), margin, Call(now, Err(e))) == Err(e)
  {
  }
}
