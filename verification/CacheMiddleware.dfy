/**
 * The caching middleware of api/internal/handlers/middleware.go: which requests go through the cache,
 * under which key, and which responses it keeps.
 */
module CacheMiddleware {
  import opened Wrappers
  import opened CacheKeys
  import opened LruSpec
  import opened ResponseCaches

  datatype HttpRequest = HttpRequest(isGet: bool, path: string, rawQuery: string)

  const QUERY_TOO_LONG: Response := Response(414, "query string too long")

  predicate Cacheable(r: Response) { 200 <= r.status < 300 }

  /** The request is answered past the cache: another method, or a query over the limit. */
  predicate Bypasses(request: HttpRequest, maxQueryBytes: nat) {
    !request.isGet || |request.rawQuery| > maxQueryBytes
  }

  /** One request served: what the handler would answer, and the clock at the lookup and at the store. */
  datatype Exchange = Exchange(request: HttpRequest, handled: Response, arrived: int, answered: int)

  /** What a request with no other in between leaves in the cache, and how it is answered. */
  ghost function Exchanged(l: Slots, x: Exchange, maxQueryBytes: nat, c: Config): (Slots, Response)
    requires AllBytes(x.request.rawQuery)
  {
    if Bypasses(x.request, maxQueryBytes) then (l, if x.request.isGet then QUERY_TOO_LONG else x.handled)
    else
      var key := KeyOf(x.request.path, x.request.rawQuery);
      var checked := Applied(l, Lookup(key, x.arrived), c);
      if Hits(l, key, x.arrived) then (checked, Find(l, key).value.response)
      else (if Cacheable(x.handled) then Applied(checked, Store(key, x.handled, x.answered), c) else checked, x.handled)
  }

  method Serve(cache: ResponseCache, maxQueryBytes: nat, request: HttpRequest, handled: Response, arrived: int, answered: int)
    returns (response: Response)
    requires cache.Valid() && AllBytes(request.rawQuery)
    modifies cache
    ensures cache.Valid()
    ensures (cache.Contents(), response)
         == Exchanged(old(cache.Contents()), Exchange(request, handled, arrived, answered), maxQueryBytes, cache.Cfg())
  {
    if !request.isGet {
      return handled;
    }
    if |request.rawQuery| > maxQueryBytes {
      return QUERY_TOO_LONG;
    }
    var key := NormalizedCacheKey(request.path, request.rawQuery);
    var hit := cache.Check(key, arrived);
    if hit.Some? {
      return hit.value;
    }
    if Cacheable(handled) {
      cache.Put(key, handled, answered);
    }
    response := handled;
  }

  /** Operation i of the history was done for request i. */
  ghost predicate DoneFor(h: seq<Op>, requests: seq<HttpRequest>) {
    |h| == |requests| && forall i :: 0 <= i < |h| ==> DoneForOne(h[i], requests[i])
  }

  ghost predicate DoneForOne(op: Op, r: HttpRequest) {
    AllBytes(r.rawQuery) && op.key == KeyOf(r.path, r.rawQuery)
  }

  ghost predicate Asks(r: HttpRequest, other: HttpRequest) {
    SameRequest(r.path, r.rawQuery, other.path, other.rawQuery)
  }

  /** One request has no query and a path that spells out the other's path and query. */
  ghost predicate Confused(r: HttpRequest, other: HttpRequest)
    requires AllBytes(r.rawQuery) && AllBytes(other.rawQuery)
  {
    Spells(r.path, r.rawQuery, other.path, other.rawQuery) || Spells(other.path, other.rawQuery, r.path, r.rawQuery)
  }

  /**
   * Whatever the interleaving of lookups and stores, a hit returns what the handler answered, no more
   * than the TTL earlier, to a request for the same path whose query parses alike, or to one whose
   * path and query this request's path spells out, or the other way round.
   */
  lemma HitAnswersSameRequest(h: seq<Op>, requests: seq<HttpRequest>, c: Config, request: HttpRequest, now: int)
    requires DoneFor(h, requests) && AllBytes(request.rawQuery)
    requires Hits(Run(h, c), KeyOf(request.path, request.rawQuery), now)
    ensures exists i :: 0 <= i < |h| && h[i].Store? && now - h[i].now <= c.ttl
              && Find(Run(h, c), KeyOf(request.path, request.rawQuery)).value.response == h[i].response
              && DoneForOne(h[i], requests[i]) && (Asks(requests[i], request) || Confused(requests[i], request))
  {
    var key := KeyOf(request.path, request.rawQuery);
    HitIsLatestStore(h, c, key, now);
    var i := LastStore(h, key);
    assert DoneForOne(h[i], requests[i]);
    SameKeyExactly(requests[i].path, requests[i].rawQuery, request.path, request.rawQuery);
  }

  /** A path without a question mark is confused with no other, so its hits answer the request itself. */
  lemma PlainPathIsNotConfused(r: HttpRequest, other: HttpRequest)
    requires AllBytes(r.rawQuery) && AllBytes(other.rawQuery) && '?' !in r.path && '?' !in other.path
    ensures !Confused(r, other)
  {
    assert other.rawQuery != "" ==> KeyOf(other.path, other.rawQuery)[|other.path|] == '?';
    assert r.rawQuery != "" ==> KeyOf(r.path, r.rawQuery)[|r.path|] == '?';
  }

  // ---------------------------------------------------------------- only success is repeated

  predicate Success(status: int) { 200 <= status <= 299 }

  /** Every store of the history is one the middleware makes, whatever runs in between. */
  predicate Made(h: seq<Op>) { forall i :: 0 <= i < |h| && h[i].Store? ==> Cacheable(h[i].response) }

  /** In every interleaving, what a hit repeats was a success. */
  lemma OnlySuccessIsRepeated(h: seq<Op>, c: Config, key: string, now: int)
    requires Made(h) && Hits(Run(h, c), key, now)
    ensures Success(Find(Run(h, c), key).value.response.status)
  {
    HitIsLatestStore(h, c, key, now);
  }

  ghost predicate InBytes(xs: seq<Exchange>) { forall i :: 0 <= i < |xs| ==> AllBytes(xs[i].request.rawQuery) }

  /** The cache after requests served one after the other, from an empty one on. */
  ghost function Serving(xs: seq<Exchange>, maxQueryBytes: nat, c: Config): Slots
    requires InBytes(xs)
  {
    if xs == [] then [] else Exchanged(Serving(xs[..|xs| - 1], maxQueryBytes, c), xs[|xs| - 1], maxQueryBytes, c).0
  }

  lemma RunNext(h: seq<Op>, op: Op, c: Config)
    ensures Run(h + [op], c) == Applied(Run(h, c), op, c)
  {
    assert (h + [op])[..|h|] == h;
  }

  /** One request adds its critical sections to a history. */
  lemma ExchangeIsMade(h: seq<Op>, x: Exchange, maxQueryBytes: nat, c: Config) returns (more: seq<Op>)
    requires Made(h) && AllBytes(x.request.rawQuery)
    ensures Made(more) && Run(more, c) == Exchanged(Run(h, c), x, maxQueryBytes, c).0
  {
    more := h;
    if !Bypasses(x.request, maxQueryBytes) {
      var key := KeyOf(x.request.path, x.request.rawQuery);
      RunNext(h, Lookup(key, x.arrived), c);
      more := h + [Lookup(key, x.arrived)];
      if !Hits(Run(h, c), key, x.arrived) && Cacheable(x.handled) {
        RunNext(more, Store(key, x.handled, x.answered), c);
        more := more + [Store(key, x.handled, x.answered)];
      }
    }
  }

  /** Requests served one after the other are such a history. */
  lemma {:induction false} ServingIsMade(xs: seq<Exchange>, maxQueryBytes: nat, c: Config) returns (h: seq<Op>)
    requires InBytes(xs)
    ensures Made(h) && Run(h, c) == Serving(xs, maxQueryBytes, c)
  {
    h := [];
    if xs != [] {
      h := ServingIsMade(xs[..|xs| - 1], maxQueryBytes, c);
      h := ExchangeIsMade(h, xs[|xs| - 1], maxQueryBytes, c);
    }
  }

  predicate Looks(x: Exchange, maxQueryBytes: nat) { x.request.isGet && |x.request.rawQuery| <= maxQueryBytes }

  ghost predicate SameKey(x: Exchange, y: Exchange)
    requires AllBytes(x.request.rawQuery) && AllBytes(y.request.rawQuery)
  {
    KeyOf(x.request.path, x.request.rawQuery) == KeyOf(y.request.path, y.request.rawQuery)
  }

  ghost predicate Misses(l: Slots, x: Exchange)
    requires AllBytes(x.request.rawQuery)
  {
    !Hits(l, KeyOf(x.request.path, x.request.rawQuery), x.arrived)
  }

  /** A miss drops what was cached under the key, if it was there and expired. */
  lemma MissLeavesNone(l: Slots, key: string, now: int)
    requires !Hits(l, key, now)
    ensures Find(Looked(l, key, now), key).None?
  {
    FindIsMember(l, key);
    FindIsMember(Looked(l, key, now), key);
    WithoutKeyMembers(l, key);
  }

  lemma StoreIsFound(l: Slots, key: string, r: Response, now: int, c: Config)
    requires c.maxEntries > 0
    ensures Find(Applied(l, Store(key, r, now), c), key) == Some(Slot(key, r, now + c.ttl))
  {
    FindFirst(Applied(l, Store(key, r, now), c), key);
  }

  /**
   * Whatever is cached, after a request that reached the handler: if it failed, the next one for its key
   * reaches the handler too; if it succeeded, the next one within the TTL repeats its answer.
   */
  lemma NextReachesHandlerExactly(l: Slots, x: Exchange, y: Exchange, maxQueryBytes: nat, c: Config)
    requires c.maxEntries > 0 && AllBytes(x.request.rawQuery) && AllBytes(y.request.rawQuery)
    requires Looks(x, maxQueryBytes) && Looks(y, maxQueryBytes) && SameKey(x, y) && Misses(l, x)
    ensures var (after, answer) := Exchanged(l, x, maxQueryBytes, c);
            && answer == x.handled
            && (Misses(after, y) <==> !Success(x.handled.status) || y.arrived > x.answered + c.ttl)
            && Exchanged(after, y, maxQueryBytes, c).1 == if Misses(after, y) then y.handled else x.handled
  {
    var key := KeyOf(x.request.path, x.request.rawQuery);
    MissLeavesNone(l, key, x.arrived);
    StoreIsFound(Looked(l, key, x.arrived), key, x.handled, x.answered, c);
  }

  lemma {:induction false} FindFirst(l: Slots, key: string)
    requires l != [] && l[0].key == key
    ensures Find(l, key) == Some(l[0])
  {
    if |l| > 1 {
      FindFirst(l[..|l| - 1], key);
    }
  }

  /** Past the cache: other methods are handled, overlong queries refused, and neither leaves a trace. */
  lemma PastTheCache(l: Slots, x: Exchange, maxQueryBytes: nat, c: Config)
    requires AllBytes(x.request.rawQuery) && !Looks(x, maxQueryBytes)
    ensures var (after, response) := Exchanged(l, x, maxQueryBytes, c);
            after == l && (if x.request.isGet then response.status == 414 else response == x.handled)
  {
  }
}
