/**
 * What one resolution concludes, read off the replies themselves: status codes, bodies, features and
 * positions, without the classification that api/internal/ingestor/gdacs.go makes on the way.
 */
module ReplyLaws {
  import opened Wrappers
  import opened Geometry
  import opened Marker
  import opened Coordinates
  import opened Gdacs
  import opened RunBudgets

  // ---------------------------------------------------------------- what a reply says

  /** Neither a 404 nor a 200 with a whole, decodable body: nothing was learned. */
  predicate Lost<T>(r: Reply<T>) {
    match r
    case TransportError => true
    case HttpReply(status, body) => status !in {200, 404} || (status == 200 && (body.BrokenBody? || body.Undecodable?))
  }

  predicate NotThere<T>(r: Reply<T>) { r.HttpReply? && r.status == 404 }

  /** The event names this many episodes: as many as it lists, or the newest id where it lists none. */
  predicate Names(event: EventData, n: int) {
    event.properties.Some?
    && match (event.properties.value.episodes, event.properties.value.episodeID)
       case (None, None) => false
       case (None, Some(id)) => n == id
       case (Some(list), None) => n == |list|
       case (Some(list), Some(id)) => n == if |list| > 0 then |list| else id
  }

  predicate Counts(r: Reply<EventData>, n: int) {
    r.HttpReply? && r.status == 200 && r.body.Decoded? && Names(r.body.value, n)
  }

  /** A feature that can be told from an error envelope, whether or not it has a geometry. */
  predicate Legible(f: Feature) {
    match f.geometry
    case NullGeometry => true
    case Shape(kind, coordinates) =>
      && f.class_ != "" && kind != ""
      && (f.class_ == "Poly_Affected" && kind == "Polygon" ==>
            && coordinates.Some? && coordinates.value.value.Array?
            && (coordinates.value.value.items == [] || Collect(coordinates.value.value) != []))
    case _ => false
  }

  /** GDACS said everything about the episode: that it has none, or a list of legible features. */
  predicate Told(r: Reply<FeatureCollection>) {
    || NotThere(r)
    || (r.HttpReply? && r.status == 200 && r.body.Decoded? && r.body.value.features.Some?
        && forall i :: 0 <= i < |r.body.value.features.value| ==> Legible(r.body.value.features.value[i]))
  }

  /** Vertex for vertex within 0.0002 degrees. */
  predicate Close(e: Position, g: Position) {
    -0.0002 < e.lon - g.lon < 0.0002 && -0.0002 < e.lat - g.lat < 0.0002
  }

  /** The two rings agree, or agree once longitude and latitude of the first are exchanged. */
  predicate Agree(e: seq<Position>, g: seq<Position>) {
    && |e| == |g| > 0
    && ((forall i :: 0 <= i < |e| ==> Close(e[i], g[i]))
        || (forall i :: 0 <= i < |e| ==> Close(Position(e[i].lat, e[i].lon), g[i])))
  }

  /** The reply holds an affected polygon with this text, in range and agreeing with the ring. */
  predicate Offers(r: Reply<FeatureCollection>, ring: seq<Position>, text: RawJson) {
    && r.HttpReply? && r.status == 200 && r.body.Decoded? && r.body.value.features.Some?
    && Feature("Poly_Affected", Shape("Polygon", Some(text))) in r.body.value.features.value
    && text.value.Array? && Agree(ring, Collect(text.value))
    && forall p :: p in Collect(text.value) ==> -180.0 <= p.lon <= 180.0 && -90.0 <= p.lat <= 90.0
  }

  /** Episodes 1..n, no more than 100 of them, were all asked for before the end, and all told. */
  ghost predicate AllTold(s: Session, left: nat, deadline: int, n: int) {
    n <= 100 && forall ep: nat :: 1 <= ep <= n ==> EpisodeTold(s, left, deadline, ep)
  }

  predicate EpisodeTold(s: Session, left: nat, deadline: int, ep: nat) {
    !s.cancelledBefore(ep) && AllowedAt(s, left, deadline, ep) && Told(s.episode(ep))
  }

  /** GDACS settled the matter: no such event, no episodes, or episodes that were all told. */
  ghost predicate Settled(s: Session, left: nat, deadline: int) {
    AllowedAt(s, left, deadline, 0)
    && (NotThere(s.event) || exists n :: Counts(s.event, n) && (n <= 0 || AllTold(s, left, deadline, n)))
  }

  ghost predicate OfferedUpTo(s: Session, ring: seq<Position>, n: int, text: RawJson) {
    exists ep: nat :: 1 <= ep <= n && Offers(s.episode(ep), ring, text)
  }

  ghost predicate OneOffer(s: Session, ring: seq<Position>, n: int) {
    exists text :: OfferedUpTo(s, ring, n, text) && forall other :: OfferedUpTo(s, ring, n, other) ==> other == text
  }

  /** One polygon was offered by n episodes that were all told. */
  ghost predicate OneRingTold(s: Session, left: nat, deadline: int, ring: seq<Position>, n: int) {
    && AllowedAt(s, left, deadline, 0) && Counts(s.event, n) && n > 0
    && AllTold(s, left, deadline, n) && OneOffer(s, ring, n)
  }

  // ---------------------------------------------------------------- the model's terms, read off replies

  lemma EpisodeAnswer(s: Session, left: nat, deadline: int, ep: nat)
    ensures Answered(AnswersOf(s, left, deadline).episode(ep)) <==> AllowedAt(s, left, deadline, ep) && Told(s.episode(ep))
  {
    var answer := AnswersOf(s, left, deadline).episode(ep);
    assert answer == Outcome(s, left, deadline, ep, s.episode(ep));
    if answer.Fetched? && answer.value.features.Some? {
      var fs := answer.value.features.value;
      assert forall i :: 0 <= i < |fs| ==> (Unreadable(fs[i]) <==> !Legible(fs[i]));
    }
  }

  lemma AgreeIsCorrespondence(e: seq<Position>, g: seq<Position>)
    ensures Agree(e, g) <==> Corresponds(e, g)
  {
    if |e| == |g| {
      assert forall i :: 0 <= i < |e| ==> (Close(e[i], g[i]) <==> NearPosition(e[i], g[i]));
      assert forall i :: 0 <= i < |e| ==> (Close(Position(e[i].lat, e[i].lon), g[i]) <==> NearPosition(SwapAll(e)[i], g[i]));
    }
  }

  lemma MatchIsOffer(s: Session, left: nat, deadline: int, ring: seq<Position>, ep: nat, text: RawJson)
    requires AllowedAt(s, left, deadline, ep)
    ensures MatchAt(AnswersOf(s, left, deadline), ring, ep, text) <==> Offers(s.episode(ep), ring, text)
  {
    var a := AnswersOf(s, left, deadline);
    assert a.episode(ep) == Outcome(s, left, deadline, ep, s.episode(ep));
    AgreeIsCorrespondence(ring, Collect(text.value));
    if MatchAt(a, ring, ep, text) {
      var f :| f in FeaturesOf(a.episode(ep)) && Matches(f, ring) && f.geometry.coordinates.value == text;
      assert f == Feature("Poly_Affected", Shape("Polygon", Some(text)));
    }
    if Offers(s.episode(ep), ring, text) {
      assert Matches(Feature("Poly_Affected", Shape("Polygon", Some(text))), ring);
    }
  }

  lemma CountIsDeclared(s: Session, left: nat, deadline: int, n: int)
    requires AllowedAt(s, left, deadline, 0)
    ensures var event := AnswersOf(s, left, deadline).event;
            Counts(s.event, n) <==> event.Fetched? && DeclaredEpisodes(event.value) == Some(n)
  {
  }

  lemma AllToldIsComplete(s: Session, left: nat, deadline: int, n: nat)
    ensures AllTold(s, left, deadline, n) <==> CompleteScan(AnswersOf(s, left, deadline), n)
  {
    var a := AnswersOf(s, left, deadline);
    forall ep: nat ensures EpisodeTold(s, left, deadline, ep) <==> !a.cancelledBefore(ep) && Answered(a.episode(ep)) {
      EpisodeAnswer(s, left, deadline, ep);
    }
  }

  lemma OfferIsMatch(s: Session, left: nat, deadline: int, ring: seq<Position>, n: nat, text: RawJson)
    requires AllTold(s, left, deadline, n)
    ensures OfferedUpTo(s, ring, n, text) <==> MatchUpTo(AnswersOf(s, left, deadline), ring, n, text)
  {
    forall ep: nat | 1 <= ep <= n
      ensures MatchAt(AnswersOf(s, left, deadline), ring, ep, text) <==> Offers(s.episode(ep), ring, text)
    {
      assert EpisodeTold(s, left, deadline, ep);
      MatchIsOffer(s, left, deadline, ring, ep, text);
    }
  }

  lemma OneOfferIsOneText(s: Session, left: nat, deadline: int, ring: seq<Position>, n: nat)
    requires AllTold(s, left, deadline, n)
    ensures OneOffer(s, ring, n) <==> ExactlyOneText(AnswersOf(s, left, deadline), ring, n)
  {
    forall text ensures OfferedUpTo(s, ring, n, text) <==> MatchUpTo(AnswersOf(s, left, deadline), ring, n, text) {
      OfferIsMatch(s, left, deadline, ring, n, text);
    }
  }

  ghost predicate OneTextScanned(a: Answers, ring: seq<Position>, n: int) {
    Scannable(ring, a) && EpisodeCount(a) == n && CompleteScan(a, n) && ExactlyOneText(a, ring, n)
  }

  lemma RingToldIsScan(ring: seq<Position>, s: Session, left: nat, deadline: int, n: int)
    requires s.usableReference && ring != []
    ensures OneRingTold(s, left, deadline, ring, n) <==> OneTextScanned(AnswersOf(s, left, deadline), ring, n)
  {
    if AllowedAt(s, left, deadline, 0) {
      CountIsDeclared(s, left, deadline, n);
      if n > 0 {
        AllToldIsComplete(s, left, deadline, n);
        if AllTold(s, left, deadline, n) {
          OneOfferIsOneText(s, left, deadline, ring, n);
        }
      }
    }
  }

  /** In a complete scan, matches are offers, episode by episode. */
  lemma MatchesAreOffers(s: Session, left: nat, deadline: int, ring: seq<Position>, n: nat)
    requires CompleteScan(AnswersOf(s, left, deadline), n)
    ensures forall ep: nat, text :: 1 <= ep <= n ==>
              (MatchAt(AnswersOf(s, left, deadline), ring, ep, text) <==> Offers(s.episode(ep), ring, text))
  {
    AllToldIsComplete(s, left, deadline, n);
    forall ep: nat, text | 1 <= ep <= n
      ensures MatchAt(AnswersOf(s, left, deadline), ring, ep, text) <==> Offers(s.episode(ep), ring, text)
    {
      assert EpisodeTold(s, left, deadline, ep);
      MatchIsOffer(s, left, deadline, ring, ep, text);
    }
  }

  lemma TransposedExactly(e: seq<Position>, g: seq<Position>)
    requires |e| == |g|
    ensures !SameRing(e, g) <==> exists i :: 0 <= i < |e| && !Close(e[i], g[i])
  {
    assert forall i :: 0 <= i < |e| ==> (Close(e[i], g[i]) <==> NearPosition(e[i], g[i]));
  }

  // ---------------------------------------------------------------- the resolution, read off the replies

  /** Fail closed: whatever is not told, by any status but 404, any broken body or any illegible feature, is an outage. */
  lemma OutageExactly(ring: seq<Position>, s: Session, left: nat, deadline: int)
    ensures Resolve(ring, AnswersOf(s, left, deadline)) == UpstreamFailure
            <==> s.usableReference && ring != [] && !Settled(s, left, deadline)
  {
    var a := AnswersOf(s, left, deadline);
    if AllowedAt(s, left, deadline, 0) {
      forall n ensures Counts(s.event, n) <==> a.event.Fetched? && DeclaredEpisodes(a.event.value) == Some(n) {
        CountIsDeclared(s, left, deadline, n);
      }
      if Scannable(ring, a) {
        assert Counts(s.event, EpisodeCount(a));
        AllToldIsComplete(s, left, deadline, EpisodeCount(a));
      }
    }
  }

  /** A geometry exactly when the episodes named were all told, and offer one polygon between them. */
  lemma ResolvedFromReplies(ring: seq<Position>, s: Session, left: nat, deadline: int)
    ensures Resolve(ring, AnswersOf(s, left, deadline)).Resolved?
            <==> s.usableReference && ring != [] && exists n :: OneRingTold(s, left, deadline, ring, n)
  {
    var a := AnswersOf(s, left, deadline);
    ResolvedExactly(ring, a);
    if s.usableReference && ring != [] {
      forall n ensures OneRingTold(s, left, deadline, ring, n) <==> OneTextScanned(a, ring, n) {
        RingToldIsScan(ring, s, left, deadline, n);
      }
      assert Scannable(ring, a) ==> (OneTextScanned(a, ring, EpisodeCount(a)) <==> Resolve(ring, a).Resolved?);
    }
  }

  /** And it is that polygon, as the earliest episode to offer it spells it, with its marker and its axis order. */
  lemma ResolvedIsOffered(ring: seq<Position>, s: Session, left: nat, deadline: int)
    requires Resolve(ring, AnswersOf(s, left, deadline)).Resolved?
    ensures var g := Resolve(ring, AnswersOf(s, left, deadline)).geom;
            && Offers(s.episode(g.episodeID), ring, g.coordinates)
            && (forall ep: nat, text :: 1 <= ep < g.episodeID ==> !Offers(s.episode(ep), ring, text))
            && g.vertices == |ring| && Position(g.lon, g.lat) == MarkerOf(Collect(g.coordinates.value))
            && (g.transposed <==> exists i :: 0 <= i < |ring| && !Close(ring[i], Collect(g.coordinates.value)[i]))
  {
    var a := AnswersOf(s, left, deadline);
    var g := Resolve(ring, a).geom;
    ResolvedExactly(ring, a);
    MatchesAreOffers(s, left, deadline, ring, EpisodeCount(a));
    TransposedExactly(ring, Collect(g.coordinates.value));
  }

  /** The rest is refused: GDACS settled the matter, or was never asked, and no one polygon came of it. */
  lemma RefusedFromReplies(ring: seq<Position>, s: Session, left: nat, deadline: int)
    ensures Resolve(ring, AnswersOf(s, left, deadline)) == Unverifiable
            <==> !s.usableReference || ring == []
                 || (Settled(s, left, deadline) && !exists n :: OneRingTold(s, left, deadline, ring, n))
  {
    OutageExactly(ring, s, left, deadline);
    ResolvedFromReplies(ring, s, left, deadline);
  }

  /** One lost episode, or a lost event, is an outage whatever else was served. */
  lemma LostReplyIsOutage(ring: seq<Position>, s: Session, left: nat, deadline: int, n: int, ep: nat)
    requires s.usableReference && ring != []
    requires Lost(s.event) || (Counts(s.event, n) && 1 <= ep <= n && Lost(s.episode(ep)))
    ensures Resolve(ring, AnswersOf(s, left, deadline)) == UpstreamFailure
  {
    OutageExactly(ring, s, left, deadline);
    if !Lost(s.event) {
      assert !EpisodeTold(s, left, deadline, ep);
      assert forall m :: Counts(s.event, m) ==> m == n;
    }
  }
}
