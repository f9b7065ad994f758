/**
 * What the run budget and its cache can and cannot change about a resolution
 * (RunBudget.resolveTyped in api/internal/ingestor/gdacs.go).
 */
module CacheTransparency {
  import opened Wrappers
  import opened Geometry
  import opened Rings
  import opened Coordinates
  import opened Gdacs
  import opened RunBudgets

  /** The answers of a session when no request is refused. */
  function Unbudgeted(s: Session): Answers {
    Answers(s.usableReference, Classify(s.event), (ep: nat) => Classify(s.episode(ep)), s.cancelledBefore)
  }

  // ---------------------------------------------------------------- the budget alone

  /** Resolve looks only at the event and at the episodes the event declares. */
  lemma {:induction false} CandidatesDependOnEpisodes(ring: seq<Position>, a: Answers, b: Answers, n: nat)
    requires forall ep :: 1 <= ep <= n ==> a.episode(ep) == b.episode(ep)
    ensures AllCandidates(a, ring, n) == AllCandidates(b, ring, n)
  {
    if n > 0 {
      CandidatesDependOnEpisodes(ring, a, b, n - 1);
    }
  }

  /** Refused requests can only turn a result into an outage, never into another answer. */
  lemma BudgetOnlyWithholds(ring: seq<Position>, s: Session, left: nat, deadline: int)
    ensures var r := Resolve(ring, AnswersOf(s, left, deadline));
            r == UpstreamFailure || r == Resolve(ring, Unbudgeted(s))
  {
    var a, b := AnswersOf(s, left, deadline), Unbudgeted(s);
    if Scannable(ring, a) && CompleteScan(a, EpisodeCount(a)) {
      var n := EpisodeCount(a);
      forall ep | 1 <= ep <= n ensures a.episode(ep) == b.episode(ep) {
        assert a.episode(ep) == Outcome(s, left, deadline, ep, s.episode(ep));
        assert Answered(a.episode(ep));
      }
      CandidatesDependOnEpisodes(ring, a, b, n);
      assert forall ep :: 1 <= ep <= n ==> Answered(a.episode(ep)) && !a.cancelledBefore(ep);
      assert CompleteScan(b, n);
    }
  }

  function EpisodesNeeded(ring: seq<Position>, s: Session): nat {
    if Scannable(ring, Unbudgeted(s)) then EpisodeCount(Unbudgeted(s)) else 0
  }

  /** Enough requests for the declared episodes, and a clock that stays before the deadline. */
  predicate Ample(ring: seq<Position>, s: Session, left: nat, deadline: int) {
    && left > EpisodesNeeded(ring, s)
    && s.start < deadline && forall j: nat :: j <= EpisodesNeeded(ring, s) ==> s.now(j) < deadline
  }

  lemma {:induction false} EnoughAllows(s: Session, left: nat, deadline: int, j: nat)
    requires left > j && forall i: nat :: i <= j ==> s.now(i) < deadline
    ensures LeftBefore(s, left, deadline, j) == left - j && AllowedAt(s, left, deadline, j)
  {
    if j > 0 {
      EnoughAllows(s, left, deadline, j - 1);
    }
  }

  lemma AmpleBudgetWithholdsNothing(ring: seq<Position>, s: Session, left: nat, deadline: int)
    requires Ample(ring, s, left, deadline)
    ensures Resolve(ring, AnswersOf(s, left, deadline)) == Resolve(ring, Unbudgeted(s))
  {
    var a, b := AnswersOf(s, left, deadline), Unbudgeted(s);
    EnoughAllows(s, left, deadline, 0);
    assert a.event == b.event;
    if Scannable(ring, b) {
      var n := EpisodeCount(b);
      forall ep | 1 <= ep <= n ensures a.episode(ep) == b.episode(ep) {
        assert a.episode(ep) == Outcome(s, left, deadline, ep, s.episode(ep));
        EnoughAllows(s, left, deadline, ep);
      }
      CandidatesDependOnEpisodes(ring, a, b, n);
      assert CompleteScan(a, n) <==> CompleteScan(b, n);
    }
  }

  // ---------------------------------------------------------------- the cache over a whole run

  datatype Call = Call(url: string, ring: seq<Position>, session: Session)

  /** The budget after the calls, and their results, in order. */
  function RunCalls(b: Budget, calls: seq<Call>): (Budget, seq<Resolution>)
    ensures |RunCalls(b, calls).1| == |calls|
  {
    if calls == [] then (b, [])
    else
      var (before, results) := RunCalls(b, calls[..|calls| - 1]);
      var c := calls[|calls| - 1];
      var (after, r) := ResolveCached(before, c.url, c.ring, c.session);
      (after, results + [r])
  }

  /** Every call for a URL gets the same replies: the outside world is a fixed function of the URL. */
  ghost predicate FixedWorld(calls: seq<Call>) {
    forall i, j :: 0 <= i < j < |calls| && calls[i].url == calls[j].url ==>
      SameReplies(calls[i].session, calls[j].session)
  }

  ghost predicate SameReplies(s: Session, t: Session) {
    && s.usableReference == t.usableReference && s.event == t.event
    && forall ep: nat :: s.episode(ep) == t.episode(ep) && s.cancelledBefore(ep) == t.cancelledBefore(ep)
  }

  /** URL and vertex count determine the ring, up to the order of the axes. */
  predicate KeyDeterminesRing(calls: seq<Call>) {
    forall i, j :: 0 <= i < j < |calls| && calls[i].url == calls[j].url && |calls[i].ring| == |calls[j].ring| ==>
      calls[j].ring == calls[i].ring || calls[j].ring == SwapAll(calls[i].ring)
  }

  /** Each cached entry is the uncached resolution of an earlier call with that key. */
  predicate CacheExplained(cache: map<string, Resolution>, calls: seq<Call>) {
    forall key :: key in cache ==>
      exists i :: 0 <= i < |calls| && key == CacheKey(calls[i].url, |calls[i].ring|)
                  && cache[key] == Resolve(calls[i].ring, Unbudgeted(calls[i].session))
  }

  lemma {:induction false} CacheStaysExplained(b: Budget, calls: seq<Call>)
    requires b.cache == map[]
    ensures CacheExplained(RunCalls(b, calls).0.cache, calls)
  {
    if calls != [] {
      var n := |calls| - 1;
      var before := RunCalls(b, calls[..n]).0;
      CacheStaysExplained(b, calls[..n]);
      BudgetOnlyWithholds(calls[n].ring, calls[n].session, before.left, before.deadline);
      OneMoreExplained(before, calls);
    }
  }

  lemma OneMoreExplained(before: Budget, calls: seq<Call>)
    requires calls != [] && CacheExplained(before.cache, calls[..|calls| - 1])
    requires var c := calls[|calls| - 1];
             var r := Resolve(c.ring, AnswersOf(c.session, before.left, before.deadline));
             r == UpstreamFailure || r == Resolve(c.ring, Unbudgeted(c.session))
    ensures var c := calls[|calls| - 1];
            CacheExplained(ResolveCached(before, c.url, c.ring, c.session).0.cache, calls)
  {
    var n := |calls| - 1;
    var c := calls[n];
    var after := ResolveCached(before, c.url, c.ring, c.session).0;
    forall key | key in after.cache
      ensures exists i :: 0 <= i < |calls| && key == CacheKey(calls[i].url, |calls[i].ring|)
                && after.cache[key] == Resolve(calls[i].ring, Unbudgeted(calls[i].session))
    {
      if key in before.cache {
        var i :| 0 <= i < n && key == CacheKey(calls[..n][i].url, |calls[..n][i].ring|)
                 && before.cache[key] == Resolve(calls[..n][i].ring, Unbudgeted(calls[..n][i].session));
        assert calls[i] == calls[..n][i];
      }
    }
  }

  /**
   * Against a fixed world, if (URL, vertex count) determines the ring up to axis order, a call's
   * result is the uncached, unbudgeted one up to the transposed flag, or an outage; and it is no
   * outage of the budget's making when the budget before the call was ample.
   */
  lemma CacheIsTransparent(b: Budget, calls: seq<Call>, c: Call)
    requires b.cache == map[]
    requires FixedWorld(calls + [c]) && KeyDeterminesRing(calls + [c])
    ensures var before := RunCalls(b, calls).0;
            var r := ResolveCached(before, c.url, c.ring, c.session).1;
            var uncached := Resolve(c.ring, Unbudgeted(c.session));
            && (r == UpstreamFailure || SameButTransposed(uncached, r))
            && (Ample(c.ring, c.session, before.left, before.deadline) ==> SameButTransposed(uncached, r))
  {
    var before := RunCalls(b, calls).0;
    var key := CacheKey(c.url, |c.ring|);
    CacheStaysExplained(b, calls);
    if key in before.cache {
      var i :| 0 <= i < |calls| && key == CacheKey(calls[i].url, |calls[i].ring|)
               && before.cache[key] == Resolve(calls[i].ring, Unbudgeted(calls[i].session));
      CacheKeyInjective(c.url, |c.ring|, calls[i].url, |calls[i].ring|);
      var all := calls + [c];
      assert all[i] == calls[i] && all[|calls|] == c;
      SameRepliesResolveAlike(calls[i].ring, calls[i].session, c.session);
      assert SwapAll(SwapAll(calls[i].ring)) == calls[i].ring;
      ResolveAxisFree(c.ring, Unbudgeted(c.session));
    } else {
      BudgetOnlyWithholds(c.ring, c.session, before.left, before.deadline);
      if Ample(c.ring, c.session, before.left, before.deadline) {
        AmpleBudgetWithholdsNothing(c.ring, c.session, before.left, before.deadline);
      }
    }
  }

  lemma SameRepliesResolveAlike(ring: seq<Position>, s: Session, t: Session)
    requires SameReplies(s, t)
    ensures Resolve(ring, Unbudgeted(s)) == Resolve(ring, Unbudgeted(t))
  {
    var a, b := Unbudgeted(s), Unbudgeted(t);
    if Scannable(ring, a) {
      CandidatesDependOnEpisodes(ring, a, b, EpisodeCount(a));
      assert forall ep :: a.episode(ep) == b.episode(ep);
      assert CompleteScan(a, EpisodeCount(a)) <==> CompleteScan(b, EpisodeCount(b));
    }
  }

  /** An entry of the cache is never changed or dropped. */
  lemma {:induction false} EntriesStay(b: Budget, calls: seq<Call>, i: nat, key: string)
    requires i <= |calls| && key in RunCalls(b, calls[..i]).0.cache
    ensures key in RunCalls(b, calls).0.cache
            && RunCalls(b, calls).0.cache[key] == RunCalls(b, calls[..i]).0.cache[key]
  {
    if i < |calls| {
      assert calls[..|calls| - 1][..i] == calls[..i];
      EntriesStay(b, calls[..|calls| - 1], i, key);
    } else {
      assert calls[..i] == calls;
    }
  }

  lemma {:induction false} ResultOfCall(b: Budget, calls: seq<Call>, i: nat)
    requires i < |calls|
    ensures RunCalls(b, calls).1[i] == RunCalls(b, calls[..i + 1]).1[i]
  {
    if i < |calls| - 1 {
      assert calls[..|calls| - 1][..i + 1] == calls[..i + 1];
      ResultOfCall(b, calls[..|calls| - 1], i);
    } else {
      assert calls[..i + 1] == calls;
    }
  }

  /**
   * However many calls lie between: once a call was answered, every later one with its key gets the
   * same answer, spends nothing, and leaves the cache as it was.
   */
  lemma AnsweredOnceIsFree(b: Budget, calls: seq<Call>, i: nat, c: Call)
    requires i < |calls| && calls[i].url == c.url && |calls[i].ring| == |c.ring|
    requires !RunCalls(b, calls).1[i].UpstreamFailure?
    ensures ResolveCached(RunCalls(b, calls).0, c.url, c.ring, c.session)
            == (RunCalls(b, calls).0, RunCalls(b, calls).1[i])
  {
    var key := CacheKey(c.url, |c.ring|);
    ResultOfCall(b, calls, i);
    assert calls[..i + 1][..i] == calls[..i];
    assert calls[..i + 1][i] == calls[i];
    EntriesStay(b, calls, i + 1, key);
  }

  // ---------------------------------------------------------------- the hypothesis is needed

  /** Coordinates of a polygon, as an array of positions that are all in range. */
  predicate PolygonText(text: RawJson) {
    text.value.Array? && text.value.items != [] && Collect(text.value) != [] && AllInWgs84(Collect(text.value))
  }

  function OnlyFeature(text: RawJson): seq<Feature> { [Feature("Poly_Affected", Shape("Polygon", Some(text)))] }

  /** GDACS declares one episode, whose only affected polygon has these coordinates; the clock stands still. */
  ghost predicate OneEpisode(s: Session, text: RawJson) {
    && s.usableReference
    && s.event == HttpReply(200, Decoded(EventData(Some(EventProperties(Some(1), None)))))
    && (forall ep: nat :: s.episode(ep) == HttpReply(200, Decoded(FeatureCollection(Some(OnlyFeature(text))))))
    && (forall ep: nat :: !s.cancelledBefore(ep))
    && s.start == 0 && forall j: nat :: s.now(j) == 0
  }

  lemma OneEpisodeExists(text: RawJson) returns (s: Session)
    ensures OneEpisode(s, text)
  {
    s := Session(0, true, HttpReply(200, Decoded(EventData(Some(EventProperties(Some(1), None))))),
                 (ep: nat) => HttpReply(200, Decoded(FeatureCollection(Some(OnlyFeature(text))))),
                 (j: nat) => 0, (ep: nat) => false);
  }

  lemma OnlyCandidate(ring: seq<Position>, text: RawJson)
    requires PolygonText(text)
    ensures var cs := Candidates(OnlyFeature(text), ring, 1);
            if Corresponds(ring, Collect(text.value)) then |cs| == 1 else cs == []
    ensures !Unreadable(OnlyFeature(text)[0])
  {
    var features := OnlyFeature(text);
    assert features[..0] == [];
    assert Candidates(features[..0], ring, 1) == [];
  }

  lemma OneEpisodeResolution(ring: seq<Position>, s: Session, text: RawJson)
    requires |ring| > 0 && OneEpisode(s, text) && PolygonText(text)
    ensures var r := Resolve(ring, Unbudgeted(s));
            if Corresponds(ring, Collect(text.value)) then r.Resolved? else r == Unverifiable
    ensures EpisodesNeeded(ring, s) == 1
  {
    OnlyCandidate(ring, text);
    OneEpisodeScan(ring, s, text);
  }

  lemma OneEpisodeScan(ring: seq<Position>, s: Session, text: RawJson)
    requires |ring| > 0 && OneEpisode(s, text) && !Unreadable(OnlyFeature(text)[0])
    ensures var a := Unbudgeted(s);
            && Scannable(ring, a) && EpisodeCount(a) == 1 && CompleteScan(a, 1)
            && AllCandidates(a, ring, 1) == Candidates(OnlyFeature(text), ring, 1)
  {
    var a := Unbudgeted(s);
    assert a.episode(1) == Fetched(FeatureCollection(Some(OnlyFeature(text))));
    assert AllCandidates(a, ring, 0) == [];
  }

  const FULL_BUDGET := Budget(MAX_GDACS_REQUESTS_PER_RUN, GDACS_RUN_BUDGET_MS, map[])

  /** The first of two events is answered and cached, for two requests. */
  lemma FirstCallIsCached(url: string, ring: seq<Position>, s: Session, text: RawJson)
    requires |ring| > 0 && OneEpisode(s, text) && PolygonText(text)
    ensures var after := ResolveCached(FULL_BUDGET, url, ring, s).0;
            && CacheKey(url, |ring|) in after.cache
            && after.cache[CacheKey(url, |ring|)] == Resolve(ring, Unbudgeted(s))
            && after.left >= MAX_GDACS_REQUESTS_PER_RUN - 2 && after.deadline == GDACS_RUN_BUDGET_MS
  {
    var left, deadline := FULL_BUDGET.left, FULL_BUDGET.deadline;
    OneEpisodeResolution(ring, s, text);
    AmpleBudgetWithholdsNothing(ring, s, left, deadline);
    AttemptsBound(ring, s, left, deadline);
    LeftNeverFallsFast(s, left, deadline, RequestsAttempted(ring, AnswersOf(s, left, deadline)));
  }

  lemma AttemptsBound(ring: seq<Position>, s: Session, left: nat, deadline: int)
    ensures RequestsAttempted(ring, AnswersOf(s, left, deadline)) <= 1 + EpisodesNeeded(ring, s)
  {
    var a := AnswersOf(s, left, deadline);
    if Scannable(ring, a) {
      assert a.event == Unbudgeted(s).event;
      EpisodesRequestedBound(a, AtMost(EpisodeCount(a), MAX_GDACS_EPISODES));
    }
  }

  /**
   * Two events that share a source URL and a vertex count, and a GDACS polygon that corresponds to
   * exactly one of them: with an ample budget the second is given the first one's answer from the
   * cache, a geometry or a refusal, although its own is the other.
   */
  lemma SharedKeyMisleads(url: string, first: seq<Position>, second: seq<Position>, s: Session, text: RawJson)
    requires |first| == |second| > 0 && OneEpisode(s, text) && PolygonText(text)
    requires Corresponds(first, Collect(text.value)) != Corresponds(second, Collect(text.value))
    ensures var before := ResolveCached(FULL_BUDGET, url, first, s).0;
            var cached, uncached := ResolveCached(before, url, second, s).1, Resolve(second, Unbudgeted(s));
            && Ample(second, s, before.left, before.deadline)
            && cached == Resolve(first, Unbudgeted(s))
            && (if Corresponds(first, Collect(text.value)) then cached.Resolved? && uncached == Unverifiable
                else cached == Unverifiable && uncached.Resolved?)
  {
    FirstCallIsCached(url, first, s, text);
    OneEpisodeResolution(first, s, text);
    OneEpisodeResolution(second, s, text);
  }

  /**
   * Under one URL, ring s may follow ring r: against every fixed world and with every budget that is
   * ample when s is resolved, s gets its uncached resolution up to the transposed flag.
   */
  ghost predicate MayFollow(url: string, r: seq<Position>, s: seq<Position>) {
    forall b: Budget, t: Session, u: Session :: b.cache == map[] && SameReplies(t, u) ==> AgreesAfter(b, url, r, t, s, u)
  }

  ghost predicate AgreesAfter(b: Budget, url: string, r: seq<Position>, t: Session, s: seq<Position>, u: Session) {
    var before := ResolveCached(b, url, r, t).0;
    Ample(s, u, before.left, before.deadline) ==>
      SameButTransposed(Resolve(s, Unbudgeted(u)), ResolveCached(before, url, s, u).1)
  }

  /** A GDACS polygon that corresponds to exactly one of the rings, as a text. */
  lemma SeparatingText(r: seq<Position>, s: seq<Position>) returns (text: RawJson)
    requires |s| == |r| && s != r && s != SwapAll(r) && AllInWgs84(r) && AllInWgs84(s)
    ensures PolygonText(text) && Corresponds(r, Collect(text.value)) != Corresponds(s, Collect(text.value))
  {
    var g := SeparatingRing(r, s);
    CollectPolygon([g]);
    assert Flatten([g]) == g by { assert [g][..0] == []; }
    text := RawJson(PolygonTree([g]), "");
  }

  /**
   * The cache is transparent for two rings of one URL and one vertex count exactly when they are the
   * same ring up to axis order.
   */
  lemma KeyMustDetermineRing(url: string, r: seq<Position>, s: seq<Position>)
    requires |r| == |s| && AllInWgs84(r) && AllInWgs84(s)
    ensures MayFollow(url, r, s) <==> s == r || s == SwapAll(r)
  {
    if s == r || s == SwapAll(r) {
      forall b: Budget, t: Session, u: Session | b.cache == map[] && SameReplies(t, u)
        ensures AgreesAfter(b, url, r, t, s, u)
      {
        SameRingMayFollow(b, url, r, t, s, u);
      }
    } else {
      var text := SeparatingText(r, s);
      var w := OneEpisodeExists(text);
      SharedKeyMisleads(url, r, s, w, text);
      assert !AgreesAfter(FULL_BUDGET, url, r, w, s, w);
    }
  }

  lemma SameRingMayFollow(b: Budget, url: string, r: seq<Position>, t: Session, s: seq<Position>, u: Session)
    requires b.cache == map[] && SameReplies(t, u) && (s == r || s == SwapAll(r))
    ensures AgreesAfter(b, url, r, t, s, u)
  {
    var calls, c := [Call(url, r, t)], Call(url, s, u);
    assert calls[..0] == [];
    assert RunCalls(b, calls[..0]) == (b, []);
    assert RunCalls(b, calls).0 == ResolveCached(b, url, r, t).0;
    CacheIsTransparent(b, calls, c);
  }

  /** Each attempted request costs at most one. */
  lemma {:induction false} LeftNeverFallsFast(s: Session, left: nat, deadline: int, j: nat)
    ensures left <= LeftBefore(s, left, deadline, j) + j && LeftBefore(s, left, deadline, j) <= left
  {
    if j > 0 {
      LeftNeverFallsFast(s, left, deadline, j - 1);
    }
  }

  lemma {:induction false} EpisodesRequestedBound(a: Answers, n: nat)
    ensures EpisodesRequested(a, n) <= n
  {
    if n > 0 {
      EpisodesRequestedBound(a, n - 1);
    }
  }
}
