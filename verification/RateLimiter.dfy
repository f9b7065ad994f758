/**
 * The per-client limiter of api/internal/handlers/middleware.go: a bounded map of token buckets
 * with two evictions, against the limiter that keeps one bucket per client for ever.
 */
module RateLimiter {
  import opened TokenBuckets
  import opened Collections

  datatype Entry = Entry(bucket: Bucket, lastSeen: real)

  type Buckets = map<string, Entry>

  datatype Config = Config(rpm: nat, maxBuckets: nat, ttl: real)

  // ---------------------------------------------------------------- the two evictions

  function WithoutExpired(m: Buckets, now: real, ttl: real): Buckets {
    map ip | ip in m && now - m[ip].lastSeen <= ttl :: m[ip]
  }

  /** What the eviction loop holds after visiting these keys: the oldest so far, "" for none. */
  function Oldest(m: Buckets, visited: seq<string>): string
    requires forall i :: 0 <= i < |visited| ==> visited[i] in m
  {
    if visited == [] then ""
    else
      var ip := visited[|visited| - 1];
      var oldest := Oldest(m, visited[..|visited| - 1]);
      if oldest == "" || oldest !in m || m[ip].lastSeen < m[oldest].lastSeen then ip else oldest
  }

  /** The keys of the map, each once, in some order. */
  predicate IterationOrder(m: Buckets, order: seq<string>) {
    && (forall i :: 0 <= i < |order| ==> order[i] in m)
    && (forall ip :: ip in m ==> ip in order)
    && forall i, j :: 0 <= i < j < |order| ==> order[i] != order[j]
  }

  function WithoutOldest(m: Buckets, order: seq<string>): Buckets
    requires IterationOrder(m, order)
  {
    if Oldest(m, order) == "" then m else m - {Oldest(m, order)}
  }

  /** With non-empty keys, the loop finds a least recently seen key, whatever the iteration order. */
  lemma {:induction false} OldestIsLeast(m: Buckets, visited: seq<string>)
    requires (forall i :: 0 <= i < |visited| ==> visited[i] in m) && "" !in visited && visited != []
    ensures Oldest(m, visited) in visited && Oldest(m, visited) != ""
    ensures forall i :: 0 <= i < |visited| ==> m[Oldest(m, visited)].lastSeen <= m[visited[i]].lastSeen
  {
    var init := visited[..|visited| - 1];
    if init != [] {
      OldestIsLeast(m, init);
    }
  }

  lemma EvictionRemovesOne(m: Buckets, order: seq<string>)
    requires IterationOrder(m, order) && "" !in m && m != map[]
    ensures Oldest(m, order) in m && |WithoutOldest(m, order)| == |m| - 1
    ensures WithoutOldest(m, order) == m - {Oldest(m, order)}
    ensures forall ip :: ip in m ==> m[Oldest(m, order)].lastSeen <= m[ip].lastSeen
  {
    assert order != [] by { var ip :| ip in m; assert ip in order; }
    OldestIsLeast(m, order);
    assert (m - {Oldest(m, order)}).Keys == m.Keys - {Oldest(m, order)};
  }

  // ---------------------------------------------------------------- one request, as one atomic step

  /** The entry a request finds or creates, and the map it is found in. */
  function Admitted(m: Buckets, ip: string, now: real, c: Config, order: seq<string>): Buckets
    requires IterationOrder(WithoutExpired(m, now, c.ttl), order)
  {
    var live := WithoutExpired(m, now, c.ttl);
    if ip in live then live
    else (if |live| >= c.maxBuckets then WithoutOldest(live, order) else live)[ip := Entry(Fresh(LimitOf(c.rpm), now), now)]
  }

  function Requested(m: Buckets, ip: string, now: real, c: Config, order: seq<string>): (Buckets, bool)
    requires IterationOrder(WithoutExpired(m, now, c.ttl), order)
  {
    var admitted := Admitted(m, ip, now, c, order);
    Answered(admitted, ip, now, c)
  }

  /** What a request does to the map that its client was admitted to. */
  function Answered(admitted: Buckets, ip: string, now: real, c: Config): (Buckets, bool)
    requires ip in admitted
  {
    var b := admitted[ip].bucket;
    (admitted[ip := Entry(Called(b, LimitOf(c.rpm), now), now)], Allows(b, LimitOf(c.rpm), now))
  }

  /** The unbounded limiter: a bucket per client, made on its first request and never evicted. */
  function BucketOf(u: map<string, Bucket>, ip: string, now: real, rpm: nat): Bucket {
    if ip in u then u[ip] else Fresh(LimitOf(rpm), now)
  }

  function RequestedUnbounded(u: map<string, Bucket>, ip: string, now: real, rpm: nat): (map<string, Bucket>, bool) {
    var b := BucketOf(u, ip, now, rpm);
    (u[ip := Called(b, LimitOf(rpm), now)], Allows(b, LimitOf(rpm), now))
  }

  // ---------------------------------------------------------------- histories

  datatype Request = Request(ip: string, time: real)

  /** A history: the requests, and the order in which each eviction happened to walk the map. */
  predicate History(reqs: seq<Request>, orders: seq<seq<string>>, maps: seq<Buckets>, c: Config) {
    && |orders| == |reqs| && |maps| == |reqs| + 1 && maps[0] == map[]
    && TimesMonotone(reqs)
    && forall k :: 0 <= k < |reqs| ==>
         && IterationOrder(WithoutExpired(maps[k], reqs[k].time, c.ttl), orders[k])
         && maps[k + 1] == Requested(maps[k], reqs[k].ip, reqs[k].time, c, orders[k]).0
  }

  function Unbounded(reqs: seq<Request>, k: nat, rpm: nat): map<string, Bucket>
    requires k <= |reqs|
  {
    if k == 0 then map[]
    else RequestedUnbounded(Unbounded(reqs, k - 1, rpm), reqs[k - 1].ip, reqs[k - 1].time, rpm).0
  }

  /** The distinct clients of the 60 seconds up to and including request k. */
  function ClientsInMinute(reqs: seq<Request>, k: nat): set<string>
    requires k < |reqs|
  {
    set i | 0 <= i <= k && reqs[i].time > reqs[k].time - 60.0 :: reqs[i].ip
  }

  /** The assumptions: a TTL of a minute or more, non-empty keys, and no more than maxBuckets clients a minute. */
  predicate Assumptions(reqs: seq<Request>, c: Config) {
    && c.ttl >= 60.0 && c.maxBuckets > 0
    && (forall i :: 0 <= i < |reqs| ==> reqs[i].ip != "")
    && forall k :: 0 <= k < |reqs| ==> |ClientsInMinute(reqs, k)| <= c.maxBuckets
  }

  /** Client ip was last served by request i, one of the first k. */
  predicate ServedAt(reqs: seq<Request>, k: nat, i: nat, ip: string, time: real)
    requires k <= |reqs|
  {
    i < k && reqs[i].ip == ip && reqs[i].time == time
  }

  ghost predicate Served(reqs: seq<Request>, k: nat, ip: string, time: real)
    requires k <= |reqs|
  {
    exists i :: ServedAt(reqs, k, i, ip, time)
  }

  /** Every unbounded bucket is in range and stems from a request. */
  ghost predicate UnboundedSound(u: map<string, Bucket>, reqs: seq<Request>, k: nat, rpm: nat)
    requires k <= |reqs|
  {
    forall ip :: ip in u ==> InRange(u[ip], LimitOf(rpm)) && Served(reqs, k, ip, u[ip].lastTime)
  }

  /** Kept buckets are the unbounded ones; a missing one has been idle for a minute. */
  predicate Simulates(m: Buckets, u: map<string, Bucket>, now: real) {
    && (forall ip :: ip in m ==> ip != "" && ip in u && m[ip] == Entry(u[ip], u[ip].lastTime))
    && (forall ip :: ip in u ==> u[ip].lastTime <= now)
    && forall ip :: ip in u && ip !in m ==> now - u[ip].lastTime >= 60.0
  }

  lemma SimulationAges(m: Buckets, u: map<string, Bucket>, now: real, later: real)
    requires Simulates(m, u, now) && now <= later
    ensures Simulates(m, u, later)
  {
  }

  lemma ExpiryKeepsSimulation(m: Buckets, u: map<string, Bucket>, now: real, ttl: real)
    requires Simulates(m, u, now) && ttl >= 60.0
    ensures Simulates(WithoutExpired(m, now, ttl), u, now)
  {
  }

  /** If the map is full and a new client arrives, some bucket has been idle for a minute. */
  lemma FullMapHasIdleBucket(m: Buckets, u: map<string, Bucket>, reqs: seq<Request>, k: nat, c: Config)
    requires k < |reqs| && Assumptions(reqs, c)
    requires Simulates(m, u, reqs[k].time) && UnboundedSound(u, reqs, k, c.rpm)
    requires reqs[k].ip !in m && |m| >= c.maxBuckets
    ensures exists ip :: ip in m && reqs[k].time - m[ip].lastSeen >= 60.0
  {
    var now, clients := reqs[k].time, ClientsInMinute(reqs, k);
    if forall ip :: ip in m ==> now - m[ip].lastSeen < 60.0 {
      forall ip | ip in m ensures ip in clients {
        assert Served(reqs, k, ip, u[ip].lastTime);
        var i: nat :| ServedAt(reqs, k, i, ip, u[ip].lastTime);
        assert reqs[i].ip in clients;
      }
      assert reqs[k].ip in clients;
      assert |m.Keys + {reqs[k].ip}| == |m| + 1;
      SubsetSize(m.Keys + {reqs[k].ip}, clients);
      assert false;
    }
  }

  /** So the bucket that is evicted has been idle for a minute. */
  lemma EvictedIsIdle(m: Buckets, u: map<string, Bucket>, now: real, order: seq<string>)
    requires Simulates(m, u, now) && IterationOrder(m, order)
    requires exists ip :: ip in m && now - m[ip].lastSeen >= 60.0
    ensures Simulates(WithoutOldest(m, order), u, now)
    ensures |WithoutOldest(m, order)| == |m| - 1 && WithoutOldest(m, order).Keys <= m.Keys
  {
    EvictionRemovesOne(m, order);
  }

  /** Serving a client from buckets that answer alike keeps the simulation. */
  lemma ServeSimulates(m: Buckets, u: map<string, Bucket>, ip: string, now: real, l: Limit, b: Bucket, expected: Bucket)
    requires Simulates(m, u, now) && ip != ""
    requires Called(b, l, now) == Called(expected, l, now)
    ensures Simulates(m[ip := Entry(Called(b, l, now), now)], u[ip := Called(expected, l, now)], now)
  {
  }

  /** The buckets kept for a new client: room for it, and nothing lost that was not idle. */
  lemma RoomForNewClient(live: Buckets, u: map<string, Bucket>, reqs: seq<Request>, k: nat, c: Config, order: seq<string>)
    requires k < |reqs| && Assumptions(reqs, c) && IterationOrder(live, order)
    requires Simulates(live, u, reqs[k].time) && UnboundedSound(u, reqs, k, c.rpm) && |live| <= c.maxBuckets
    requires reqs[k].ip !in live
    ensures var kept := if |live| >= c.maxBuckets then WithoutOldest(live, order) else live;
            Simulates(kept, u, reqs[k].time) && |kept| < c.maxBuckets && reqs[k].ip !in kept
  {
    if |live| >= c.maxBuckets {
      FullMapHasIdleBucket(live, u, reqs, k, c);
      EvictedIsIdle(live, u, reqs[k].time, order);
    }
  }

  /** A client of the bounded map is answered exactly as the unbounded limiter answers. */
  lemma RequestSimulates(m: Buckets, u: map<string, Bucket>, reqs: seq<Request>, k: nat, c: Config, order: seq<string>)
    requires k < |reqs| && Assumptions(reqs, c) && IterationOrder(WithoutExpired(m, reqs[k].time, c.ttl), order)
    requires Simulates(m, u, reqs[k].time) && UnboundedSound(u, reqs, k, c.rpm) && |m| <= c.maxBuckets
    ensures var ip, now := reqs[k].ip, reqs[k].time;
            var (m', allowed) := Requested(m, ip, now, c, order);
            var (u', expected) := RequestedUnbounded(u, ip, now, c.rpm);
            && allowed == expected && Simulates(m', u', now) && |m'| <= c.maxBuckets
  {
    var ip, now := reqs[k].ip, reqs[k].time;
    var live := WithoutExpired(m, now, c.ttl);
    ExpiryKeepsSimulation(m, u, now, c.ttl);
    SubsetSize(live.Keys, m.Keys);
    if ip in live {
      KnownClient(live, u, ip, now, c);
    } else {
      RoomForNewClient(live, u, reqs, k, c, order);
      NewClient(if |live| >= c.maxBuckets then WithoutOldest(live, order) else live, u, ip, now, c);
    }
  }

  lemma KnownClient(live: Buckets, u: map<string, Bucket>, ip: string, now: real, c: Config)
    requires Simulates(live, u, now) && ip in live && |live| <= c.maxBuckets
    ensures var (m', allowed) := Answered(live, ip, now, c);
            var (u', expected) := RequestedUnbounded(u, ip, now, c.rpm);
            && allowed == expected && Simulates(m', u', now) && |m'| <= c.maxBuckets
  {
    ServeSimulates(live, u, ip, now, LimitOf(c.rpm), live[ip].bucket, u[ip]);
    assert Answered(live, ip, now, c).0.Keys == live.Keys;
  }

  lemma NewClient(kept: Buckets, u: map<string, Bucket>, ip: string, now: real, c: Config)
    requires Simulates(kept, u, now) && ip !in kept && ip != "" && |kept| < c.maxBuckets
    requires ip in u ==> InRange(u[ip], LimitOf(c.rpm))
    ensures var admitted := kept[ip := Entry(Fresh(LimitOf(c.rpm), now), now)];
            var (m', allowed) := Answered(admitted, ip, now, c);
            var (u', expected) := RequestedUnbounded(u, ip, now, c.rpm);
            && allowed == expected && Simulates(m', u', now) && |m'| <= c.maxBuckets
  {
    var l := LimitOf(c.rpm);
    var full := Fresh(l, now);
    if ip in u {
      IdleMinuteIsFresh(u[ip], c.rpm, now);
    }
    ServeSimulates(kept, u, ip, now, l, full, BucketOf(u, ip, now, c.rpm));
    var m' := Answered(kept[ip := Entry(full, now)], ip, now, c).0;
    assert m' == kept[ip := Entry(Called(full, l, now), now)];
    assert m'.Keys == kept.Keys + {ip};
  }

  lemma UnboundedStaysSound(u: map<string, Bucket>, reqs: seq<Request>, k: nat, c: Config)
    requires k < |reqs| && UnboundedSound(u, reqs, k, c.rpm)
    requires forall ip :: ip in u ==> u[ip].lastTime <= reqs[k].time
    ensures UnboundedSound(RequestedUnbounded(u, reqs[k].ip, reqs[k].time, c.rpm).0, reqs, k + 1, c.rpm)
  {
    var ip, now := reqs[k].ip, reqs[k].time;
    var u' := RequestedUnbounded(u, ip, now, c.rpm).0;
    RefillInRange(BucketOf(u, ip, now, c.rpm), LimitOf(c.rpm), now);
    forall other | other in u' ensures Served(reqs, k + 1, other, u'[other].lastTime) {
      if other == ip {
        assert ServedAt(reqs, k + 1, k, ip, now);
      } else {
        var i :| ServedAt(reqs, k, i, other, u[other].lastTime);
        assert ServedAt(reqs, k + 1, i, other, u[other].lastTime);
      }
    }
  }

  lemma {:induction false} SimulationThroughout(
      reqs: seq<Request>, orders: seq<seq<string>>, maps: seq<Buckets>, c: Config, k: nat)
    requires History(reqs, orders, maps, c) && Assumptions(reqs, c) && k <= |reqs|
    ensures UnboundedSound(Unbounded(reqs, k, c.rpm), reqs, k, c.rpm) && |maps[k]| <= c.maxBuckets
    ensures k < |reqs| ==> Simulates(maps[k], Unbounded(reqs, k, c.rpm), reqs[k].time)
    ensures k > 0 ==> Simulates(maps[k], Unbounded(reqs, k, c.rpm), reqs[k - 1].time)
  {
    if k > 0 {
      SimulationThroughout(reqs, orders, maps, c, k - 1);
      SimulationStep(reqs, orders, maps, c, k - 1);
    }
  }

  lemma SimulationStep(reqs: seq<Request>, orders: seq<seq<string>>, maps: seq<Buckets>, c: Config, k: nat)
    requires History(reqs, orders, maps, c) && Assumptions(reqs, c) && k < |reqs|
    requires UnboundedSound(Unbounded(reqs, k, c.rpm), reqs, k, c.rpm) && |maps[k]| <= c.maxBuckets
    requires Simulates(maps[k], Unbounded(reqs, k, c.rpm), reqs[k].time)
    ensures UnboundedSound(Unbounded(reqs, k + 1, c.rpm), reqs, k + 1, c.rpm) && |maps[k + 1]| <= c.maxBuckets
    ensures Simulates(maps[k + 1], Unbounded(reqs, k + 1, c.rpm), reqs[k].time)
    ensures k + 1 < |reqs| ==> Simulates(maps[k + 1], Unbounded(reqs, k + 1, c.rpm), reqs[k + 1].time)
  {
    var u := Unbounded(reqs, k, c.rpm);
    RequestSimulates(maps[k], u, reqs, k, c, orders[k]);
    UnboundedStaysSound(u, reqs, k, c);
    if k + 1 < |reqs| {
      SimulationAges(maps[k + 1], Unbounded(reqs, k + 1, c.rpm), reqs[k].time, reqs[k + 1].time);
    }
  }

  /**
   * Under the assumptions, evictions never change a decision: request k is allowed by the bounded
   * limiter exactly when the unbounded one allows it, and the map never exceeds maxBuckets.
   */
  lemma BoundedRefinesUnbounded(reqs: seq<Request>, orders: seq<seq<string>>, maps: seq<Buckets>, c: Config, k: nat)
    requires History(reqs, orders, maps, c) && Assumptions(reqs, c) && k < |reqs|
    ensures Requested(maps[k], reqs[k].ip, reqs[k].time, c, orders[k]).1
         == RequestedUnbounded(Unbounded(reqs, k, c.rpm), reqs[k].ip, reqs[k].time, c.rpm).1
    ensures |maps[k + 1]| <= c.maxBuckets
  {
    SimulationThroughout(reqs, orders, maps, c, k);
    RequestSimulates(maps[k], Unbounded(reqs, k, c.rpm), reqs, k, c, orders[k]);
  }

  // ---------------------------------------------------------------- the rate bound, end to end

  /** The bounded limiter's decision on request k. */
  predicate Decision(reqs: seq<Request>, orders: seq<seq<string>>, maps: seq<Buckets>, c: Config, k: nat)
    requires History(reqs, orders, maps, c) && k < |reqs|
  {
    Requested(maps[k], reqs[k].ip, reqs[k].time, c, orders[k]).1
  }

  /** How many of client ip's requests among i, ..., j-1 the bounded limiter allows. */
  function AllowedTo(reqs: seq<Request>, orders: seq<seq<string>>, maps: seq<Buckets>, c: Config, ip: string, i: nat, j: nat): nat
    requires History(reqs, orders, maps, c) && i <= j <= |reqs|
  {
    if i == j then 0
    else
      AllowedTo(reqs, orders, maps, c, ip, i, j - 1)
      + if reqs[j - 1].ip == ip && Decision(reqs, orders, maps, c, j - 1) then 1 else 0
  }

  /** count allowed calls since time from are paid for by the capacity and the refill. */
  predicate PaidFor(u: map<string, Bucket>, l: Limit, ip: string, from: real, count: nat) {
    count == 0
    || (ip in u && from <= u[ip].lastTime && u[ip].tokens + count as real <= l.cap + Gain(l, from, u[ip].lastTime))
  }

  lemma CallStaysPaidFor(u: map<string, Bucket>, rpm: nat, ip: string, from: real, count: nat, now: real)
    requires PaidFor(u, LimitOf(rpm), ip, from, count) && from <= now
    requires InRange(BucketOf(u, ip, now, rpm), LimitOf(rpm)) && BucketOf(u, ip, now, rpm).lastTime <= now
    ensures var (u', allowed) := RequestedUnbounded(u, ip, now, rpm);
            PaidFor(u', LimitOf(rpm), ip, from, count + if allowed then 1 else 0)
  {
    var l, b := LimitOf(rpm), BucketOf(u, ip, now, rpm);
    RefillInRange(b, l, now);
    CallSplits(b, l, now);
    if count == 0 {
      GainIsMonotone(l, from, now, now);
    } else {
      GainIsMonotone(l, from, b.lastTime, now);
    }
  }

  predicate UnboundedDecision(reqs: seq<Request>, rpm: nat, k: nat)
    requires k < |reqs|
  {
    RequestedUnbounded(Unbounded(reqs, k, rpm), reqs[k].ip, reqs[k].time, rpm).1
  }

  /** The same count for the unbounded limiter. */
  function AllowedUnbounded(reqs: seq<Request>, rpm: nat, ip: string, i: nat, j: nat): nat
    requires i <= j <= |reqs|
  {
    if i == j then 0
    else
      AllowedUnbounded(reqs, rpm, ip, i, j - 1)
      + if reqs[j - 1].ip == ip && UnboundedDecision(reqs, rpm, j - 1) then 1 else 0
  }

  lemma {:induction false} CountsAgree(
      reqs: seq<Request>, orders: seq<seq<string>>, maps: seq<Buckets>, c: Config, ip: string, i: nat, j: nat)
    requires History(reqs, orders, maps, c) && Assumptions(reqs, c) && i <= j <= |reqs|
    ensures AllowedTo(reqs, orders, maps, c, ip, i, j) == AllowedUnbounded(reqs, c.rpm, ip, i, j)
  {
    if i < j {
      CountsAgree(reqs, orders, maps, c, ip, i, j - 1);
      DecisionsAgree(reqs, orders, maps, c, j - 1);
    }
  }

  lemma DecisionsAgree(reqs: seq<Request>, orders: seq<seq<string>>, maps: seq<Buckets>, c: Config, k: nat)
    requires History(reqs, orders, maps, c) && Assumptions(reqs, c) && k < |reqs|
    ensures Decision(reqs, orders, maps, c, k) == UnboundedDecision(reqs, c.rpm, k)
  {
    BoundedRefinesUnbounded(reqs, orders, maps, c, k);
  }

  predicate TimesMonotone(reqs: seq<Request>) { forall i, j :: 0 <= i < j < |reqs| ==> reqs[i].time <= reqs[j].time }

  /** Every bucket of the unbounded limiter is in range and not from the future. */
  predicate Sane(u: map<string, Bucket>, rpm: nat, now: real) {
    forall ip :: ip in u ==> InRange(u[ip], LimitOf(rpm)) && u[ip].lastTime <= now
  }

  lemma {:induction false} UnboundedIsSane(reqs: seq<Request>, rpm: nat, k: nat)
    requires TimesMonotone(reqs) && 0 < k <= |reqs|
    ensures Sane(Unbounded(reqs, k, rpm), rpm, reqs[k - 1].time)
  {
    if k > 1 {
      UnboundedIsSane(reqs, rpm, k - 1);
    }
    var u, ip, now := Unbounded(reqs, k - 1, rpm), reqs[k - 1].ip, reqs[k - 1].time;
    RefillInRange(BucketOf(u, ip, now, rpm), LimitOf(rpm), now);
  }

  lemma {:induction false} WindowPaidFor(reqs: seq<Request>, rpm: nat, ip: string, i: nat, j: nat)
    requires TimesMonotone(reqs) && i < |reqs| && i <= j <= |reqs|
    ensures PaidFor(Unbounded(reqs, j, rpm), LimitOf(rpm), ip, reqs[i].time, AllowedUnbounded(reqs, rpm, ip, i, j))
  {
    if i < j {
      var k := j - 1;
      WindowPaidFor(reqs, rpm, ip, i, k);
      if k > 0 {
        UnboundedIsSane(reqs, rpm, k);
      }
      if reqs[k].ip == ip {
        var u, now := Unbounded(reqs, k, rpm), reqs[k].time;
        assert i < k ==> reqs[i].time <= now;
        assert BucketOf(u, ip, now, rpm).lastTime <= now;
        CallStaysPaidFor(u, rpm, ip, reqs[i].time, AllowedUnbounded(reqs, rpm, ip, i, k), now);
      }
    }
  }

  /** No more than the capacity plus what a window of this length refills. */
  predicate WithinRate(count: nat, l: Limit, length: real) { count as real <= l.cap + length * l.rate }

  lemma PaidForBound(u: map<string, Bucket>, l: Limit, ip: string, from: real, count: nat, now: real, length: real)
    requires PaidFor(u, l, ip, from, count) && Sound(l) && from <= now && now - from <= length
    requires ip in u ==> InRange(u[ip], l) && u[ip].lastTime <= now
    ensures WithinRate(count, l, length)
  {
    if count == 0 {
      GainWithin(l, from, from, length);
      GainIsMonotone(l, from, from, from);
    } else {
      GainWithin(l, from, u[ip].lastTime, length);
    }
  }

  lemma UnboundedWindowBound(reqs: seq<Request>, rpm: nat, ip: string, i: nat, j: nat, length: real)
    requires TimesMonotone(reqs) && i < j <= |reqs| && reqs[j - 1].time - reqs[i].time <= length
    ensures WithinRate(AllowedUnbounded(reqs, rpm, ip, i, j), LimitOf(rpm), length)
  {
    var count := AllowedUnbounded(reqs, rpm, ip, i, j);
    WindowPaidFor(reqs, rpm, ip, i, j);
    UnboundedIsSane(reqs, rpm, j);
    assert i < j - 1 ==> reqs[i].time <= reqs[j - 1].time;
    PaidForBound(Unbounded(reqs, j, rpm), LimitOf(rpm), ip, reqs[i].time, count, reqs[j - 1].time, length);
  }

  /**
   * Under the assumptions no client is ever allowed more than rpm + T * rpm / 60 requests in a window
   * of length T, evictions included.
   */
  lemma ClientWindowBound(
      reqs: seq<Request>, orders: seq<seq<string>>, maps: seq<Buckets>, c: Config, ip: string, i: nat, j: nat, length: real)
    requires History(reqs, orders, maps, c) && Assumptions(reqs, c) && i < j <= |reqs|
    requires reqs[j - 1].time - reqs[i].time <= length
    ensures WithinRate(AllowedTo(reqs, orders, maps, c, ip, i, j), LimitOf(c.rpm), length)
  {
    CountsAgree(reqs, orders, maps, c, ip, i, j);
    UnboundedWindowBound(reqs, c.rpm, ip, i, j, length);
  }

  // ---------------------------------------------------------------- the assumptions are needed

  /** The empty key is there, and every other client was seen strictly later. */
  predicate EmptyKeyOldest(m: Buckets) {
    "" in m && forall ip :: ip in m && ip != "" ==> m[""].lastSeen < m[ip].lastSeen
  }

  /** The search ends on the empty key only if that was visited last, and is strictly the oldest. */
  lemma OldestIsEmptyKey(m: Buckets, visited: seq<string>)
    requires visited != [] && forall i :: 0 <= i < |visited| ==> visited[i] in m
    requires forall i, j :: 0 <= i < j < |visited| ==> visited[i] != visited[j]
    requires Oldest(m, visited) == ""
    ensures "" in m && forall i :: 0 <= i < |visited| && visited[i] != "" ==> m[""].lastSeen < m[visited[i]].lastSeen
  {
    var n := |visited| - 1;
    assert visited[n] == "";
    if n > 0 {
      assert "" !in visited[..n];
      OldestIsLeast(m, visited[..n]);
      forall i | 0 <= i < n ensures m[""].lastSeen < m[visited[i]].lastSeen {
        assert visited[..n][i] == visited[i];
      }
    }
  }

  /**
   * The eviction can remove nothing from a non-empty map exactly when the empty key is in it and
   * strictly the least recently seen: then, and only then, some iteration order ends on it.
   */
  lemma NothingEvictedExactly(m: Buckets)
    requires m != map[]
    ensures (exists order :: IterationOrder(m, order) && WithoutOldest(m, order) == m) <==> EmptyKeyOldest(m)
  {
    forall order | IterationOrder(m, order) && WithoutOldest(m, order) == m ensures EmptyKeyOldest(m) {
      NoneFound(m, order);
    }
    if EmptyKeyOldest(m) {
      var order := EmptyKeyLast(m);
    }
  }

  lemma NoneFound(m: Buckets, order: seq<string>)
    requires m != map[] && IterationOrder(m, order) && WithoutOldest(m, order) == m
    ensures EmptyKeyOldest(m)
  {
    var ip :| ip in m;
    assert ip in order;
    assert Oldest(m, order) == "" by {
      if Oldest(m, order) != "" {
        assert Oldest(m, order) !in m - {Oldest(m, order)};
        OldestVisited(m, order);
        assert false;
      }
    }
    OldestIsEmptyKey(m, order);
    forall other | other in m && other != "" ensures m[""].lastSeen < m[other].lastSeen {
      assert other in order;
      var i :| 0 <= i < |order| && order[i] == other;
    }
  }

  lemma {:induction false} OldestVisited(m: Buckets, visited: seq<string>)
    requires visited != [] && forall i :: 0 <= i < |visited| ==> visited[i] in m
    ensures Oldest(m, visited) in m
  {
    if |visited| > 1 {
      OldestVisited(m, visited[..|visited| - 1]);
    }
  }

  lemma EmptyKeyLast(m: Buckets) returns (order: seq<string>)
    requires EmptyKeyOldest(m)
    ensures IterationOrder(m, order) && WithoutOldest(m, order) == m
  {
    var first := OrderOfOthers(m);
    order := first + [""];
    OrderWithLast(m, first);
    EndsOnEmptyKey(m, first);
  }

  lemma OrderOfOthers(m: Buckets) returns (first: seq<string>)
    ensures IterationOrder(m - {""}, first) && "" !in first
  {
    first := AnyOrder(m - {""});
  }

  lemma OrderWithLast(m: Buckets, first: seq<string>)
    requires "" in m && "" !in first && IterationOrder(m - {""}, first)
    ensures IterationOrder(m, first + [""])
  {
    var order := first + [""];
    forall ip | ip in m ensures ip in order {
      if ip == "" {
        assert order[|first|] == "";
      } else {
        assert ip in m - {""} && ip in first;
      }
    }
  }

  lemma EndsOnEmptyKey(m: Buckets, first: seq<string>)
    requires EmptyKeyOldest(m) && IterationOrder(m - {""}, first) && "" !in first
    ensures Oldest(m, first + [""]) == ""
  {
    assert (first + [""])[..|first|] == first;
    assert forall i :: 0 <= i < |first| ==> first[i] in m - {""};
    if first != [] {
      OldestIsLeast(m, first);
    }
  }

  /** One request takes the map over its bound exactly when a new client meets a full map that cannot evict. */
  lemma CapBreaksExactly(m: Buckets, ip: string, now: real, c: Config)
    requires |m| <= c.maxBuckets && c.maxBuckets > 0
    ensures var live := WithoutExpired(m, now, c.ttl);
            (exists order :: IterationOrder(live, order) && |Requested(m, ip, now, c, order).0| > c.maxBuckets)
            <==> ip !in live && |live| == c.maxBuckets && EmptyKeyOldest(live)
  {
    var live := WithoutExpired(m, now, c.ttl);
    SubsetSize(live.Keys, m.Keys);
    forall order | IterationOrder(live, order)
      ensures |Requested(m, ip, now, c, order).0| > c.maxBuckets
              <==> ip !in live && |live| == c.maxBuckets && WithoutOldest(live, order) == live
    {
      RequestedSize(m, ip, now, c, order);
    }
    if |live| == c.maxBuckets {
      NothingEvictedExactly(live);
    }
  }

  lemma RequestedSize(m: Buckets, ip: string, now: real, c: Config, order: seq<string>)
    requires var live := WithoutExpired(m, now, c.ttl);
             |live| <= c.maxBuckets && c.maxBuckets > 0 && IterationOrder(live, order)
    ensures var live := WithoutExpired(m, now, c.ttl);
            |Requested(m, ip, now, c, order).0| > c.maxBuckets
            <==> ip !in live && |live| == c.maxBuckets && WithoutOldest(live, order) == live
  {
    var live := WithoutExpired(m, now, c.ttl);
    var admitted := Admitted(m, ip, now, c, order);
    assert Requested(m, ip, now, c, order).0.Keys == admitted.Keys;
    if ip !in live {
      var kept := if |live| >= c.maxBuckets then WithoutOldest(live, order) else live;
      assert kept.Keys <= live.Keys;
      assert admitted.Keys == kept.Keys + {ip};
      if kept != live {
        assert Oldest(live, order) != "";
        var some :| some in live;
        assert some in order;
        OldestVisited(live, order);
        assert kept.Keys == live.Keys - {Oldest(live, order)};
      }
    }
  }

  /**
   * With non-empty client keys the map never exceeds its bound, in any history: no matter how many
   * clients there are, or how short the TTL.
   */
  lemma {:induction false} CapHolds(reqs: seq<Request>, orders: seq<seq<string>>, maps: seq<Buckets>, c: Config, k: nat)
    requires History(reqs, orders, maps, c) && c.maxBuckets > 0 && k <= |reqs|
    requires forall i :: 0 <= i < |reqs| ==> reqs[i].ip != ""
    ensures |maps[k]| <= c.maxBuckets && "" !in maps[k]
  {
    if k > 0 {
      CapHolds(reqs, orders, maps, c, k - 1);
      var m, ip, now := maps[k - 1], reqs[k - 1].ip, reqs[k - 1].time;
      var live := WithoutExpired(m, now, c.ttl);
      SubsetSize(live.Keys, m.Keys);
      RequestedSize(m, ip, now, c, orders[k - 1]);
      if live != map[] {
        EvictionRemovesOne(live, orders[k - 1]);
      }
    }
  }

  /** With an empty client key the cap can be exceeded: a second client of a one-bucket limiter is added. */
  lemma EmptyKeyBreaksCap(c: Config)
    requires c.maxBuckets == 1 && c.ttl >= 60.0
    ensures var m := Requested(map[], "", 0.0, c, []).0;
            && IterationOrder(WithoutExpired(m, 0.0, c.ttl), [""])
            && |Requested(m, "a", 0.0, c, [""]).0| == 2
  {
    var m := Requested(map[], "", 0.0, c, []).0;
    assert m.Keys == {""};
    assert WithoutExpired(m, 0.0, c.ttl) == m;
    var visited := [""];
    assert visited[..0] == [];
    assert Oldest(m, visited) == "";
    assert Requested(m, "a", 0.0, c, visited).0.Keys == {"", "a"};
  }

  /** A one-bucket limiter forgets its only client as soon as another one arrives. */
  lemma OnlyBucketEvicted(m: Buckets, ip: string, other: string, now: real, c: Config)
    requires c.maxBuckets == 1 && m.Keys == {ip} && ip != "" && other != ip && now - m[ip].lastSeen <= c.ttl
    ensures IterationOrder(WithoutExpired(m, now, c.ttl), [ip])
    ensures Requested(m, other, now, c, [ip]) == Requested(map[], other, now, c, [])
  {
    var order := [ip];
    assert WithoutExpired(m, now, c.ttl) == m;
    assert order[..0] == [] && Oldest(m, order) == ip;
    assert m - {ip} == map[];
    assert |m| == 1 by { assert |m.Keys| == 1; }
    assert WithoutExpired(map[], now, c.ttl) == map[];
    assert Admitted(m, other, now, c, order) == Admitted(map[], other, now, c, []);
  }

  /** The first client of an empty limiter is allowed. */
  /** A client alone in the map gets a fresh bucket. */
  lemma AloneGetsFresh(m: Buckets, ip: string, now: real, c: Config)
    requires c.maxBuckets > 0 && WithoutExpired(m, now, c.ttl) == map[]
    ensures var b, l := Fresh(LimitOf(c.rpm), now), LimitOf(c.rpm);
            Requested(m, ip, now, c, []) == (map[ip := Entry(Called(b, l, now), now)], Allows(b, l, now))
  {
    var l := LimitOf(c.rpm);
    var admitted := Admitted(m, ip, now, c, []);
    assert admitted == map[ip := Entry(Fresh(l, now), now)];
    assert Answered(admitted, ip, now, c).0 == map[ip := Entry(Called(Fresh(l, now), l, now), now)];
  }

  lemma FreshAllows(l: Limit, now: real)
    requires Sound(l) && l.cap >= 1.0
    ensures Allows(Fresh(l, now), l, now)
  {
    GainIsMonotone(l, now, now, now);
    assert Refilled(Fresh(l, now), l, now) == l.cap;
  }

  lemma FirstCall(ip: string, now: real, c: Config)
    requires c.maxBuckets > 0 && c.rpm > 0
    ensures var (m, allowed) := Requested(map[], ip, now, c, []);
            allowed && m.Keys == {ip} && m[ip].lastSeen == now
  {
    assert WithoutExpired(map[], now, c.ttl) == map[];
    AloneGetsFresh(map[], ip, now, c);
    FreshAllows(LimitOf(c.rpm), now);
  }

  /**
   * With more clients than buckets, eviction forgives: whatever the rate, two clients that take
   * turns on a one-bucket limiter are always allowed.
   */
  lemma TooManyClientsForgiven(m: Buckets, ip: string, other: string, now: real, c: Config)
    requires c.maxBuckets == 1 && c.rpm > 0 && ip != "" && other != ip
    requires m.Keys == {ip} && now - m[ip].lastSeen <= c.ttl
    ensures IterationOrder(WithoutExpired(m, now, c.ttl), [ip])
    ensures var (m', allowed) := Requested(m, other, now, c, [ip]);
            allowed && m'.Keys == {other} && m'[other].lastSeen == now
  {
    OnlyBucketEvicted(m, ip, other, now, c);
    FirstCall(other, now, c);
  }

  /** Kept, a one-request-a-minute bucket refuses its second call within the minute. */
  lemma KeptBucketRefuses(l: Limit, now: real)
    requires l.cap == 1.0 && 0.0 <= now && now * l.rate < 1.0
    ensures !Allows(Called(Fresh(l, 0.0), l, 0.0), l, now)
  {
    assert Gain(l, 0.0, 0.0) == 0.0;
    assert Called(Fresh(l, 0.0), l, 0.0) == Bucket(0.0, 0.0);
    assert now - 0.0 == now;
    assert Gain(l, 0.0, now) == now * l.rate;
  }

  function Only(ip: string, c: Config): Buckets { map[ip := Entry(Called(Fresh(LimitOf(c.rpm), 0.0), LimitOf(c.rpm), 0.0), 0.0)] }

  lemma FirstOnly(ip: string, c: Config)
    requires c.maxBuckets > 0
    ensures IterationOrder(WithoutExpired(map[], 0.0, c.ttl), [])
    ensures Requested(map[], ip, 0.0, c, []).0 == Only(ip, c)
  {
    assert WithoutExpired(map[], 0.0, c.ttl) == map[];
  }

  /** The second client takes the only bucket, and is allowed. */
  lemma CrowdStep(ip: string, other: string, c: Config)
    requires c.maxBuckets == 1 && c.rpm == 1 && c.ttl >= 0.0 && ip != "" && other != ip
    ensures IterationOrder(WithoutExpired(Only(ip, c), 0.0, c.ttl), [ip])
    ensures Requested(Only(ip, c), other, 0.0, c, [ip]) == (Only(other, c), true)
  {
    FirstOnly(other, c);
    TooManyClientsForgiven(Only(ip, c), ip, other, 0.0, c);
    OnlyBucketEvicted(Only(ip, c), ip, other, 0.0, c);
  }

  /** Two clients at one instant: a, b, and a again. */
  function Crowd(a: string, b: string): seq<Request> { [Request(a, 0.0), Request(b, 0.0), Request(a, 0.0)] }

  function CrowdOrders(a: string, b: string): seq<seq<string>> { [[], [a], [b]] }

  function CrowdMaps(a: string, b: string, c: Config): seq<Buckets> { [map[], Only(a, c), Only(b, c), Only(a, c)] }

  lemma CrowdHistory(a: string, b: string, c: Config)
    requires c.maxBuckets == 1 && c.rpm == 1 && c.ttl >= 0.0 && a != "" && b != "" && a != b
    ensures History(Crowd(a, b), CrowdOrders(a, b), CrowdMaps(a, b, c), c)
  {
    FirstOnly(a, c);
    CrowdStep(a, b, c);
    CrowdStep(b, a, c);
    var reqs, orders, maps := Crowd(a, b), CrowdOrders(a, b), CrowdMaps(a, b, c);
    forall k | 0 <= k < |reqs|
      ensures IterationOrder(WithoutExpired(maps[k], reqs[k].time, c.ttl), orders[k])
      ensures maps[k + 1] == Requested(maps[k], reqs[k].ip, reqs[k].time, c, orders[k]).0
    {
      if k == 0 {
      } else if k == 1 {
      } else {
      }
    }
  }

  /** The unbounded limiter still holds a's bucket, as its first request left it. */
  lemma UnboundedRefusesThird(a: string, b: string, rpm: nat)
    requires a != b && rpm == 1
    ensures !UnboundedDecision(Crowd(a, b), rpm, 2)
  {
    var l := LimitOf(rpm);
    assert Unbounded(Crowd(a, b), 0, rpm) == map[];
    assert Unbounded(Crowd(a, b), 1, rpm) == RequestedUnbounded(map[], a, 0.0, rpm).0;
    assert BucketOf(Unbounded(Crowd(a, b), 2, rpm), a, 0.0, rpm) == Called(Fresh(l, 0.0), l, 0.0);
    KeptBucketRefuses(l, 0.0);
  }

  /**
   * A limiter of one bucket and one request a minute forgets a when b arrives, so it allows a's second
   * request at once, which the limiter that never forgets refuses.
   */
  lemma EvictionForgives(a: string, b: string, c: Config)
    requires c.maxBuckets == 1 && c.rpm == 1 && c.ttl >= 0.0 && a != "" && b != "" && a != b
    ensures var reqs, orders, maps := Crowd(a, b), CrowdOrders(a, b), CrowdMaps(a, b, c);
            History(reqs, orders, maps, c) && Decision(reqs, orders, maps, c, 2) && !UnboundedDecision(reqs, c.rpm, 2)
  {
    CrowdHistory(a, b, c);
    CrowdStep(b, a, c);
    UnboundedRefusesThird(a, b, c.rpm);
  }

  /** One client, twice. */
  function Again(ip: string, t: real): seq<Request> { [Request(ip, 0.0), Request(ip, t)] }

  function AgainMaps(ip: string, t: real, c: Config): seq<Buckets> {
    [map[], Only(ip, c), map[ip := Entry(Called(Fresh(LimitOf(c.rpm), t), LimitOf(c.rpm), t), t)]]
  }

  lemma ExpiredStep(ip: string, t: real, c: Config)
    requires c.maxBuckets > 0 && c.rpm == 1 && c.ttl < t
    ensures WithoutExpired(Only(ip, c), t, c.ttl) == map[]
    ensures Requested(Only(ip, c), ip, t, c, []) == (AgainMaps(ip, t, c)[2], true)
  {
    assert WithoutExpired(Only(ip, c), t, c.ttl) == map[];
    AloneGetsFresh(Only(ip, c), ip, t, c);
    FreshAllows(LimitOf(c.rpm), t);
  }

  lemma UnboundedRefusesAgain(ip: string, t: real, rpm: nat)
    requires rpm == 1 && 0.0 <= t < 60.0
    ensures !UnboundedDecision(Again(ip, t), rpm, 1)
  {
    assert Unbounded(Again(ip, t), 0, rpm) == map[];
    assert t * LimitOf(rpm).rate < 1.0;
    KeptBucketRefuses(LimitOf(rpm), t);
  }

  /**
   * With a TTL under a minute expiry forgives too: a limiter of one request a minute allows a client's
   * second request once its bucket expired, which the limiter that never forgets refuses.
   */
  lemma ShortTtlForgives(ip: string, t: real, c: Config)
    requires c.maxBuckets > 0 && c.rpm == 1 && 0.0 <= c.ttl < t < 60.0 && ip != ""
    ensures var reqs, orders, maps := Again(ip, t), [[], []], AgainMaps(ip, t, c);
            History(reqs, orders, maps, c) && Decision(reqs, orders, maps, c, 1) && !UnboundedDecision(reqs, c.rpm, 1)
  {
    FirstOnly(ip, c);
    ExpiredStep(ip, t, c);
    UnboundedRefusesAgain(ip, t, c.rpm);
  }

  // ---------------------------------------------------------------- the limiter itself

  class IpRateLimiter {
    const rpm: nat
    const maxBuckets: nat
    const bucketTTL: real
    var buckets: map<string, TokenBucket>

    ghost predicate Valid()
      reads this, buckets.Values
    {
      && (forall ip :: ip in buckets ==> Limit(buckets[ip].maxToken, buckets[ip].refillPS) == LimitOf(rpm))
      && forall p, q :: p in buckets && q in buckets && p != q ==> buckets[p] != buckets[q]
    }

    ghost function Cfg(): Config { Config(rpm, maxBuckets, bucketTTL) }

    ghost function View(): Buckets
      reads this, buckets.Values
    {
      map ip | ip in buckets :: Entry(buckets[ip].State(), buckets[ip].lastSeen)
    }

    constructor (rpm: nat, maxBuckets: nat, bucketTTL: real)
      ensures Valid() && View() == map[]
      ensures Cfg() == Config(rpm, maxBuckets, bucketTTL)
    {
      this.rpm, this.maxBuckets, this.bucketTTL, buckets := rpm, maxBuckets, bucketTTL, map[];
    }

    method EvictExpired(now: real)
      requires Valid()
      modifies this`buckets
      ensures Valid() && buckets.Values <= old(buckets.Values)
      ensures View() == WithoutExpired(old(View()), now, bucketTTL)
    {
      ghost var before := buckets;
      var unvisited := buckets.Keys;
      while unvisited != {}
        invariant unvisited <= buckets.Keys <= before.Keys
        invariant forall ip :: ip in buckets ==> buckets[ip] == before[ip]
        invariant forall ip :: ip in before ==>
                    (ip in buckets <==> ip in unvisited || now - before[ip].lastSeen <= bucketTTL)
        decreases unvisited
      {
        var ip :| ip in unvisited;
        unvisited := unvisited - {ip};
        if now - buckets[ip].lastSeen > bucketTTL {
          buckets := buckets - {ip};
        }
      }
    }

    method EvictOldest() returns (ghost order: seq<string>)
      requires Valid()
      modifies this`buckets
      ensures Valid() && buckets.Values <= old(buckets.Values) && buckets.Keys <= old(buckets.Keys)
      ensures IterationOrder(old(View()), order) && View() == WithoutOldest(old(View()), order)
    {
      ghost var m := View();
      var oldest := "";
      var oldestSeen := 0.0;
      var unvisited := buckets.Keys;
      order := [];
      while unvisited != {}
        invariant unvisited <= buckets.Keys
        invariant forall i :: 0 <= i < |order| ==> order[i] in m && order[i] !in unvisited
        invariant forall ip :: ip in m ==> ip in order || ip in unvisited
        invariant forall i, j :: 0 <= i < j < |order| ==> order[i] != order[j]
        invariant oldest == Oldest(m, order)
        invariant oldest != "" ==> oldest in m && oldestSeen == m[oldest].lastSeen
        decreases unvisited
      {
        var ip :| ip in unvisited;
        unvisited := unvisited - {ip};
        ghost var visited := order;
        order := order + [ip];
        assert order[..|order| - 1] == visited;
        if oldest == "" || buckets[ip].lastSeen < oldestSeen {
          oldest, oldestSeen := ip, buckets[ip].lastSeen;
        }
      }
      if oldest != "" {
        buckets := buckets - {oldest};
      }
    }

    /** Find or make the client's bucket, evicting first. */
    method Admit(ip: string, now: real) returns (ghost order: seq<string>)
      requires Valid()
      modifies this`buckets
      ensures Valid() && ip in buckets
      ensures forall b :: b in buckets.Values ==> b in old(buckets.Values) || fresh(b)
      ensures IterationOrder(WithoutExpired(old(View()), now, bucketTTL), order)
      ensures View() == Admitted(old(View()), ip, now, Cfg(), order)
    {
      EvictExpired(now);
      ghost var live := View();
      order := AnyOrder(live);
      if ip !in buckets {
        if |buckets| >= maxBuckets {
          assert |live| == |buckets| by { assert live.Keys == buckets.Keys; }
          order := EvictOldest();
        } else {
          assert |live| == |buckets| by { assert live.Keys == buckets.Keys; }
        }
        AddBucket(ip, now);
      }
    }

    method AddBucket(ip: string, now: real)
      requires Valid() && ip !in buckets
      modifies this`buckets
      ensures Valid() && ip in buckets
      ensures forall b :: b in buckets.Values ==> b in old(buckets.Values) || fresh(b)
      ensures View() == old(View())[ip := Entry(Fresh(LimitOf(rpm), now), now)]
    {
      var tb := new TokenBucket(rpm, now);
      buckets := buckets[ip := tb];
    }

    /** Note the visit and draw a token. */
    method Serve(ip: string, now: real) returns (allowed: bool)
      requires Valid() && ip in buckets
      modifies buckets[ip]
      ensures Valid() && (View(), allowed) == Answered(old(View()), ip, now, Cfg())
    {
      var tb := buckets[ip];
      ghost var before := tb.State();
      tb.lastSeen := now;
      allowed := tb.Allow(now);
      assert Limit(tb.maxToken, tb.refillPS) == LimitOf(rpm);
      assert tb.State() == Called(before, LimitOf(rpm), now);
      assert View() == old(View())[ip := Entry(Called(before, LimitOf(rpm), now), now)];
    }

    /** bucketFor and allow, as one step: some iteration order explains the eviction, if there is one. */
    method Request(ip: string, now: real) returns (allowed: bool, ghost order: seq<string>)
      requires Valid()
      modifies this`buckets, buckets.Values
      ensures Valid()
      ensures IterationOrder(WithoutExpired(old(View()), now, bucketTTL), order)
      ensures (View(), allowed) == Requested(old(View()), ip, now, Cfg(), order)
    {
      order := Admit(ip, now);
      allowed := Serve(ip, now);
    }
  }

  /** Every finite map has an iteration order. */
  ghost function AnyOrder(m: Buckets): (order: seq<string>)
    ensures IterationOrder(m, order)
    decreases |m|
  {
    if m == map[] then []
    else
      var ip :| ip in m;
      assert (m - {ip}).Keys == m.Keys - {ip};
      AnyOrder(m - {ip}) + [ip]
  }
}
