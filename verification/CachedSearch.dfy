/** The cache in front of the search: a query that was answered before is not searched again. */
module CachedSearch {
  import opened Wrappers
  import R = Relations
  import opened SearchLoop
  import opened CacheKey

  datatype Response =
    Response(relations: seq<R.Graph>, stats: Option<Report>, error: string, debug: map<string, string>)

  /** What is stored: error messages and debug information are not. */
  datatype Cached = Cached(relations: seq<R.Graph>, stats: Option<Report>)

  function Stored(r: Response): Cached {
    Cached(r.relations, r.stats)
  }

  function FromCache(c: Cached): Response {
    Response(c.relations, c.stats, "", map[])
  }

  class Cache {
    var store: map<string, Cached>

    constructor ()
      ensures store == map[]
    {
      store := map[];
    }

    function GetCache(query: string): Option<Cached>
      reads this
    {
      if Key(query) in store then Some(store[Key(query)]) else None
    }

    method SetCache(query: string, c: Cached)
      modifies this
      ensures store == old(store)[Key(query) := c]
    {
      hide Key;
      store := store[Key(query) := c];
    }

    /** `live` is what the data sources would answer now. */
    method QuerySources(query: string, live: Response) returns (r: Response)
      modifies this
      ensures old(GetCache(query)).Some? ==> r == FromCache(old(GetCache(query)).value) && store == old(store)
      ensures old(GetCache(query)).None? ==> r == live && store == old(store)[Key(query) := Stored(live)]
    {
      hide Key;
      var cached := GetCache(query);
      if cached.Some? {
        return FromCache(cached.value);
      }
      r := live;
      SetCache(query, Stored(r));
    }

    /** A run from any store: the i-th query is asked when the sources would answer `live(i)`. */
    method Serve(queries: seq<string>, live: nat -> Response) returns (rs: seq<Response>)
      modifies this
      ensures |rs| == |queries|
      ensures forall i: nat | i < |queries| :: rs[i] == Answer(old(store), queries, live, i)
    {
      hide Key, First;
      rs := [];
      for n := 0 to |queries|
        invariant |rs| == n
        invariant forall i: nat | i < n :: rs[i] == Answer(old(store), queries, live, i)
        invariant forall k | k in old(store) :: k in store && store[k] == old(store)[k]
        invariant forall i: nat | i < n && Key(queries[i]) !in old(store) ::
                    Key(queries[i]) in store && store[Key(queries[i])] == Stored(live(First(queries, i, 0)))
        invariant forall k | k in store :: k in old(store) || exists i: nat | i < n :: Key(queries[i]) == k
      {
        FirstOrEarlier(queries, n);
        var r := QuerySources(queries[n], live(n));
        rs := rs + [r];
      }
    }
  }

  /**
   * What was stored before is returned. Of the other queries the first to have
   * its key is searched for, and those that share the key get its answer.
   */
  function Answer(before: map<string, Cached>, queries: seq<string>, live: nat -> Response, i: nat): Response
    requires i < |queries|
  {
    var f := First(queries, i, 0);
    if Key(queries[i]) in before then FromCache(before[Key(queries[i])])
    else if f == i then live(i)
    else FromCache(Stored(live(f)))
  }

  /** A cached answer is the live one iff that reported no error and no debug information. */
  lemma HitFaithfulExactly(r: Response)
    ensures FromCache(Stored(r)) == r <==> r.error == "" && r.debug == map[]
  {
  }

  /** The query is the first with its key iff no earlier one has it. */
  lemma FirstOrEarlier(queries: seq<string>, n: nat)
    requires n < |queries|
    ensures First(queries, n, 0) == n ==> forall i: nat | i < n :: Key(queries[i]) != Key(queries[n])
    ensures First(queries, n, 0) < n ==> Key(queries[First(queries, n, 0)]) == Key(queries[n])
    ensures forall i: nat | i < n && Key(queries[i]) == Key(queries[n]) :: First(queries, i, 0) == First(queries, n, 0)
  {
    hide Key, First;
    FirstProperties(queries, n, 0);
    forall i: nat | i < n && Key(queries[i]) == Key(queries[n]) ensures First(queries, i, 0) == First(queries, n, 0) {
      FirstSame(queries, i, n, 0);
    }
  }

  /** The earliest query, from `from` on, with the same key as query i. */
  function First(queries: seq<string>, i: nat, from: nat): (j: nat)
    requires from <= i < |queries|
    ensures from <= j <= i
    decreases i - from
  {
    if from == i || Key(queries[from]) == Key(queries[i]) then from else First(queries, i, from + 1)
  }

  lemma {:induction false} FirstProperties(queries: seq<string>, i: nat, from: nat)
    requires from <= i < |queries|
    ensures Key(queries[First(queries, i, from)]) == Key(queries[i])
    ensures forall j: nat | from <= j < First(queries, i, from) :: Key(queries[j]) != Key(queries[i])
    decreases i - from
  {
    hide Key;
    if from < i && Key(queries[from]) != Key(queries[i]) {
      FirstProperties(queries, i, from + 1);
    }
  }

  lemma {:induction false} FirstSame(queries: seq<string>, i: nat, j: nat, from: nat)
    requires from <= i < j < |queries| && Key(queries[i]) == Key(queries[j])
    ensures First(queries, j, from) == First(queries, i, from)
    decreases i - from
  {
    hide Key;
    if from < i {
      FirstSame(queries, i, j, from + 1);
    }
  }
}
