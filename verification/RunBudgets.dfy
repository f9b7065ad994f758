/**
 * The per-run request budget and answer cache of api/internal/ingestor/gdacs.go, and the
 * resolver loop that runs under it.
 */
module RunBudgets {
  import opened Geometry
  import opened Marker
  import opened Coordinates
  import opened Gdacs
  import Decimal

  const MAX_GDACS_REQUESTS_PER_RUN: nat := 60
  const GDACS_RUN_BUDGET_MS: nat := 90_000

  /**
   * What the outside world does during one resolution: the reference check, the server's replies,
   * the clock reading when the j-th request is about to be issued (0 is the event request, ep the
   * request of episode ep), and whether the context is already over before episode ep.
   */
  datatype Session = Session(
    start: int,
    usableReference: bool,
    event: Reply<EventData>,
    episode: nat -> Reply<FeatureCollection>,
    now: nat -> int,
    cancelledBefore: nat -> bool)

  predicate Allowed(left: nat, deadline: int, now: int) { left > 0 && now < deadline }

  /** Requests left before the j-th request, when requests 0..j-1 were attempted. */
  function LeftBefore(s: Session, left: nat, deadline: int, j: nat): nat {
    if j == 0 then left
    else
      var l := LeftBefore(s, left, deadline, j - 1);
      if Allowed(l, deadline, s.now(j - 1)) then l - 1 else l
  }

  predicate AllowedAt(s: Session, left: nat, deadline: int, j: nat) {
    Allowed(LeftBefore(s, left, deadline, j), deadline, s.now(j))
  }

  /** The outcome of the j-th request: a refused request is an outage. */
  function Outcome<T>(s: Session, left: nat, deadline: int, j: nat, reply: Reply<T>): Fetched<T> {
    if AllowedAt(s, left, deadline, j) then Classify(reply) else Unavailable
  }

  /** The answers the resolver sees. */
  function AnswersOf(s: Session, left: nat, deadline: int): Answers {
    Answers(
      s.usableReference,
      Outcome(s, left, deadline, 0, s.event),
      (ep: nat) => Outcome(s, left, deadline, ep, s.episode(ep)),
      s.cancelledBefore)
  }

  /** Of episodes 1..n, how many are requested before the context ends. */
  function EpisodesRequested(a: Answers, n: nat): nat {
    if n == 0 then 0
    else
      var k := EpisodesRequested(a, n - 1);
      if k < n - 1 || a.cancelledBefore(n) then k else n
  }

  function AtMost(n: nat, limit: nat): nat { if n < limit then n else limit }

  /** How many requests one resolution attempts. */
  function RequestsAttempted(ring: seq<Position>, a: Answers): nat {
    if !a.usableReference || ring == [] then 0
    else if !Scannable(ring, a) then 1
    else 1 + EpisodesRequested(a, AtMost(EpisodeCount(a), MAX_GDACS_EPISODES))
  }

  datatype Budget = Budget(left: nat, deadline: int, cache: map<string, Resolution>)

  function CacheKey(url: string, vertices: nat): string { url + "#" + Decimal.Show(vertices) }

  lemma CacheKeyInjective(url: string, n: nat, other: string, m: nat)
    requires CacheKey(url, n) == CacheKey(other, m)
    ensures url == other && n == m
  {
    Decimal.NumberSuffixUnique(url, other, '#', n, m);
  }

  /** One budgeted, cached resolution. */
  function ResolveCached(b: Budget, url: string, ring: seq<Position>, s: Session): (Budget, Resolution) {
    var key := CacheKey(url, |ring|);
    if key in b.cache then (b, b.cache[key])
    else if !Allowed(b.left, b.deadline, s.start) then (b, UpstreamFailure)
    else
      var a := AnswersOf(s, b.left, b.deadline);
      var r := Resolve(ring, a);
      var left := LeftBefore(s, b.left, b.deadline, RequestsAttempted(ring, a));
      (Budget(left, b.deadline, if r.UpstreamFailure? then b.cache else b.cache[key := r]), r)
  }

  /** How many of the first j requests were granted: one is while any is left and the deadline has not come. */
  function Granted(s: Session, left: nat, deadline: int, j: nat): nat {
    if j == 0 then 0
    else
      var before := Granted(s, left, deadline, j - 1);
      if before < left && s.now(j - 1) < deadline then before + 1 else before
  }

  /** Every granted request costs one, and no other does. */
  lemma {:induction false} GrantsAreSpent(s: Session, left: nat, deadline: int, j: nat)
    ensures Granted(s, left, deadline, j) <= left
    ensures LeftBefore(s, left, deadline, j) == left - Granted(s, left, deadline, j)
    ensures AllowedAt(s, left, deadline, j) <==> Granted(s, left, deadline, j + 1) == Granted(s, left, deadline, j) + 1
  {
    if j > 0 {
      GrantsAreSpent(s, left, deadline, j - 1);
    }
  }

  /** Episodes are asked for one after the other, 100 at most, up to the first before which the context ended. */
  lemma {:induction false} EpisodesAsked(a: Answers, n: nat)
    ensures var k := EpisodesRequested(a, n);
            k <= n && (forall ep: nat :: 1 <= ep <= k ==> !a.cancelledBefore(ep)) && (k < n ==> a.cancelledBefore(k + 1))
  {
    if n > 0 {
      EpisodesAsked(a, n - 1);
    }
  }

  /** Nothing is asked without a reference and a ring, the event alone if it names no episode, else the episodes too. */
  lemma RequestsExactly(ring: seq<Position>, a: Answers)
    ensures RequestsAttempted(ring, a)
            == if !a.usableReference || |ring| == 0 then 0
               else if a.event.Fetched? && DeclaredEpisodes(a.event.value).Some? && DeclaredEpisodes(a.event.value).value >= 1
               then 1 + EpisodesRequested(a, if DeclaredEpisodes(a.event.value).value > 100 then 100 else DeclaredEpisodes(a.event.value).value)
               else 1
  {
  }

  /** A cached answer is repeated for nothing; a spent budget is an outage; any other answer is kept, an outage is not. */
  lemma CachedExactly(b: Budget, url: string, ring: seq<Position>, s: Session)
    ensures var key := CacheKey(url, |ring|);
            var (after, r) := ResolveCached(b, url, ring, s);
            var spent := b.left == 0 || s.start >= b.deadline;
            && after.deadline == b.deadline && (forall k :: k != key ==> (k in after.cache <==> k in b.cache))
            && (forall k :: k in b.cache ==> after.cache[k] == b.cache[k])
            && (key in b.cache ==> after == b && r == b.cache[key])
            && (key !in b.cache && spent ==> after == b && r == UpstreamFailure)
            && (key !in b.cache && !spent ==>
                  var a := AnswersOf(s, b.left, b.deadline);
                  && r == Resolve(ring, a)
                  && after.left == b.left - Granted(s, b.left, b.deadline, RequestsAttempted(ring, a))
                  && (if r == UpstreamFailure then key !in after.cache else key in after.cache && after.cache[key] == r))
  {
    GrantsAreSpent(s, b.left, b.deadline, RequestsAttempted(ring, AnswersOf(s, b.left, b.deadline)));
  }

  ghost predicate SeenUpTo(a: Answers, n: nat) {
    forall ep :: 1 <= ep <= n ==> !a.cancelledBefore(ep) && Answered(a.episode(ep))
  }

  /** What one more episode adds to the scan. */
  lemma EpisodeScanned(ring: seq<Position>, s: Session, left: nat, deadline: int, a: Answers, ep: nat)
    requires ep > 0 && a == AnswersOf(s, left, deadline)
    requires !s.cancelledBefore(ep) && EpisodesRequested(a, ep - 1) == ep - 1
    ensures EpisodesRequested(a, ep) == ep
    ensures var outcome := Outcome(s, left, deadline, ep, s.episode(ep));
            && AllCandidates(a, ring, ep) == AllCandidates(a, ring, ep - 1) + Candidates(FeaturesOf(outcome), ring, ep)
            && (SeenUpTo(a, ep) <==> SeenUpTo(a, ep - 1) && Answered(outcome))
  {
    assert a.episode(ep) == Outcome(s, left, deadline, ep, s.episode(ep));
  }

  /** One feature: the match it adds, if any, and whether it was unreadable. */
  method ScanFeature(f: Feature, ring: seq<Position>, ep: nat) returns (found: seq<GdacsGeometry>, unseen: bool)
    requires |ring| > 0
    ensures unseen == Unreadable(f)
    ensures found == if Matches(f, ring) then [GeometryOf(f, ring, ep)] else []
  {
    match f.geometry {
      case MissingGeometry => return [], true;
      case NullGeometry => return [], false;
      case MalformedGeometry => return [], true;
      case Shape(kind, coordinates) =>
        if f.class_ == "" || kind == "" {
          return [], true;
        }
        if f.class_ != "Poly_Affected" || kind != "Polygon" {
          return [], false;
        }
        if coordinates.None? || !coordinates.value.value.Array? {
          return [], true;
        }
        if |coordinates.value.value.items| == 0 {
          return [], false;
        }
        var positions := CollectPositions(coordinates.value.value);
        if |positions| == 0 {
          return [], true;
        }
        if |positions| != |ring| || !AllInWgs84(positions) {
          return [], false;
        }
        var transposed, corresponds := PositionsCorrespond(ring, positions);
        if !corresponds {
          return [], false;
        }
        var lon, lat := RepresentativePoint(positions);
        return [GdacsGeometry(coordinates.value, lon, lat, ep, |positions|, transposed)], false;
    }
  }

  /** The loop over one episode's features. */
  method ScanFeatures(features: seq<Feature>, ring: seq<Position>, ep: nat)
    returns (found: seq<GdacsGeometry>, unseen: bool)
    requires |ring| > 0
    ensures found == Candidates(features, ring, ep)
    ensures unseen <==> exists i :: 0 <= i < |features| && Unreadable(features[i])
  {
    found, unseen := [], false;
    for i := 0 to |features|
      invariant found == Candidates(features[..i], ring, ep)
      invariant unseen <==> exists k :: 0 <= k < i && Unreadable(features[k])
    {
      assert features[..i + 1][..i] == features[..i];
      var more, unreadable := ScanFeature(features[i], ring, ep);
      found, unseen := found + more, unseen || unreadable;
    }
    assert features[..|features|] == features;
  }

  /** The first candidate of the lowest episode. */
  function Lowest(cs: seq<GdacsGeometry>): GdacsGeometry
    requires cs != []
  {
    if |cs| == 1 then cs[0]
    else
      var best := Lowest(cs[..|cs| - 1]);
      if cs[|cs| - 1].episodeID < best.episodeID then cs[|cs| - 1] else best
  }

  lemma {:induction false} LowestIsFirst(cs: seq<GdacsGeometry>, n: nat)
    requires cs != [] && LowestFirst(cs, n)
    ensures Lowest(cs) == cs[0]
  {
    if |cs| > 1 {
      LowestIsFirst(cs[..|cs| - 1], n);
    }
  }

  /** The final choice among the candidates of a complete scan: one text, and its lowest episode. */
  method Choose(candidates: seq<GdacsGeometry>) returns (r: Resolution)
    ensures r == if OneGeometry(candidates) then Resolved(Lowest(candidates)) else Unverifiable
  {
    var distinct: map<RawJson, GdacsGeometry> := map[];
    for i := 0 to |candidates|
      invariant forall k :: 0 <= k < i ==> candidates[k].coordinates in distinct
      invariant forall t :: t in distinct ==> exists k :: 0 <= k < i && candidates[k].coordinates == t
    {
      if candidates[i].coordinates !in distinct {
        distinct := distinct[candidates[i].coordinates := candidates[i]];
      }
    }
    if OneGeometry(candidates) {
      assert distinct.Keys == {candidates[0].coordinates};
    }
    if |distinct| != 1 {
      return Unverifiable;
    }
    SingletonKeys(distinct);
    assert OneGeometry(candidates);
    var best := candidates[0];
    for i := 0 to |candidates|
      invariant best == Lowest(candidates[..if i == 0 then 1 else i])
    {
      assert candidates[..i + 1][..i] == candidates[..i];
      if candidates[i].episodeID < best.episodeID {
        best := candidates[i];
      }
    }
    assert candidates[..|candidates|] == candidates;
    return Resolved(best);
  }

  lemma SingletonKeys<K, V>(m: map<K, V>)
    requires |m| == 1
    ensures exists k :: k in m
    ensures forall j, k :: j in m && k in m ==> j == k
  {
    assert |m.Keys| == 1;
    var k :| k in m.Keys;
    assert |m.Keys - {k}| == 0;
    forall j | j in m ensures j == k {
      assert j in m.Keys - {k} || j == k;
    }
  }

  class RunBudget {
    var requestsLeft: nat
    const deadline: int
    var cache: map<string, Resolution>
    /** Clock readings at which a request was actually issued. */
    ghost var issued: seq<int>

    /** Requests are conserved, none is issued at or after the deadline, and only answers are cached. */
    ghost predicate Valid()
      reads this
    {
      && |issued| + requestsLeft == MAX_GDACS_REQUESTS_PER_RUN
      && (forall i :: 0 <= i < |issued| ==> issued[i] < deadline)
      && (forall key :: key in cache ==> !cache[key].UpstreamFailure?)
    }

    function State(): Budget
      reads this
    {
      Budget(requestsLeft, deadline, cache)
    }

    constructor (now: int)
      ensures Valid() && issued == []
      ensures State() == Budget(60, now + 90_000, map[])
    {
      requestsLeft, deadline, cache, issued := MAX_GDACS_REQUESTS_PER_RUN, now + GDACS_RUN_BUDGET_MS, map[], [];
    }

    method Spend(now: int) returns (ok: bool)
      requires Valid()
      modifies this`requestsLeft, this`issued
      ensures Valid()
      ensures ok == Allowed(old(requestsLeft), deadline, now)
      ensures requestsLeft == old(requestsLeft) - if ok then 1 else 0
      ensures issued == old(issued) + if ok then [now] else []
    {
      if requestsLeft <= 0 || !(now < deadline) {
        return false;
      }
      requestsLeft := requestsLeft - 1;
      issued := issued + [now];
      return true;
    }

    method GetJSON<T>(now: int, reply: Reply<T>) returns (outcome: Fetched<T>)
      requires Valid()
      modifies this`requestsLeft, this`issued
      ensures Valid()
      ensures outcome == if Allowed(old(requestsLeft), deadline, now) then Classify(reply) else Unavailable
      ensures requestsLeft == old(requestsLeft) - if Allowed(old(requestsLeft), deadline, now) then 1 else 0
      ensures old(issued) <= issued
    {
      var ok := Spend(now);
      outcome := if ok then Classify(reply) else Unavailable;
    }

    /** The request and answer of one episode. */
    method ScanEpisode(ring: seq<Position>, s: Session, ep: nat, ghost left: nat)
      returns (found: seq<GdacsGeometry>, complete: bool)
      requires Valid() && |ring| > 0 && requestsLeft == LeftBefore(s, left, deadline, ep)
      modifies this`requestsLeft, this`issued
      ensures Valid() && old(issued) <= issued
      ensures requestsLeft == LeftBefore(s, left, deadline, ep + 1)
      ensures found == Candidates(FeaturesOf(Outcome(s, left, deadline, ep, s.episode(ep))), ring, ep)
      ensures complete == Answered(Outcome(s, left, deadline, ep, s.episode(ep)))
    {
      var outcome := GetJSON(s.now(ep), s.episode(ep));
      if outcome.Unavailable? || (outcome.Fetched? && outcome.value.features.None?) {
        return [], false;
      }
      if outcome.NotFound? {
        return [], true;
      }
      var unseen;
      found, unseen := ScanFeatures(outcome.value.features.value, ring, ep);
      complete := !unseen;
    }

    /** The loop over episodes 1..n, n already cut to the cap. */
    method ScanEpisodes(ring: seq<Position>, s: Session, n: nat, ghost left: nat, ghost a: Answers)
      returns (candidates: seq<GdacsGeometry>, complete: bool)
      requires Valid() && |ring| > 0
      requires a == AnswersOf(s, left, deadline) && requestsLeft == LeftBefore(s, left, deadline, 1)
      modifies this`requestsLeft, this`issued
      ensures Valid() && old(issued) <= issued
      ensures requestsLeft == LeftBefore(s, left, deadline, 1 + EpisodesRequested(a, n))
      ensures complete <==> SeenUpTo(a, n)
      ensures complete ==> candidates == AllCandidates(a, ring, n)
    {
      candidates, complete := [], true;
      var ep: nat := 1;
      while ep <= n
        invariant 1 <= ep <= n + 1
        invariant Valid() && old(issued) <= issued
        invariant requestsLeft == LeftBefore(s, left, deadline, ep)
        invariant EpisodesRequested(a, ep - 1) == ep - 1
        invariant complete ==> candidates == AllCandidates(a, ring, ep - 1)
        invariant complete <==> SeenUpTo(a, ep - 1)
      {
        if s.cancelledBefore(ep) {
          StoppedEarly(a, ep, n);
          return [], false;
        }
        var found, seen := ScanEpisode(ring, s, ep, left);
        candidates, complete := candidates + found, complete && seen;
        EpisodeScanned(ring, s, left, deadline, a, ep);
        ep := ep + 1;
      }
    }

    /** The resolver sees AnswersOf the session and concludes Resolve. */
    method ResolvePolygon(ring: seq<Position>, s: Session) returns (r: Resolution)
      requires Valid()
      modifies this`requestsLeft, this`issued
      ensures Valid() && old(issued) <= issued
      ensures var a := AnswersOf(s, old(requestsLeft), deadline);
              && r == Resolve(ring, a)
              && requestsLeft == LeftBefore(s, old(requestsLeft), deadline, RequestsAttempted(ring, a))
    {
      if !s.usableReference || |ring| == 0 {
        return Unverifiable;
      }
      ghost var left := requestsLeft;
      ghost var a := AnswersOf(s, left, deadline);
      var event := GetJSON(s.now(0), s.event);
      assert event == a.event;
      assert requestsLeft == LeftBefore(s, left, deadline, 1);
      if !event.Fetched? {
        return if event.NotFound? then Unverifiable else UpstreamFailure;
      }
      var declared := DeclaredEpisodes(event.value);
      if declared.None? {
        return UpstreamFailure;
      }
      if declared.value <= 0 {
        return Unverifiable;
      }
      var n: nat, incomplete := declared.value, false;
      if n > MAX_GDACS_EPISODES {
        n, incomplete := MAX_GDACS_EPISODES, true;
      }
      var candidates, complete := ScanEpisodes(ring, s, n, left, a);
      if incomplete || !complete {
        return UpstreamFailure;
      }
      FirstIsLowest(a, ring, n);
      if OneGeometry(candidates) {
        LowestIsFirst(candidates, n);
      }
      r := Choose(candidates);
    }

    method ResolveTyped(url: string, ring: seq<Position>, s: Session) returns (r: Resolution)
      requires Valid()
      modifies this
      ensures Valid() && old(issued) <= issued
      ensures (State(), r) == ResolveCached(old(State()), url, ring, s)
      ensures CacheKey(url, |ring|) in old(cache) ==> issued == old(issued)
    {
      var key := CacheKey(url, |ring|);
      if key in cache {
        return cache[key];
      }
      if requestsLeft <= 0 || !(s.start < deadline) {
        return UpstreamFailure;
      }
      r := ResolvePolygon(ring, s);
      if !r.UpstreamFailure? {
        cache := cache[key := r];
      }
    }
  }

  lemma {:induction false} StoppedEarly(a: Answers, ep: nat, n: nat)
    requires 1 <= ep <= n && EpisodesRequested(a, ep - 1) == ep - 1 && a.cancelledBefore(ep)
    ensures EpisodesRequested(a, n) == ep - 1 && !SeenUpTo(a, n)
  {
    if n > ep {
      StoppedEarly(a, ep, n - 1);
    }
  }
}
