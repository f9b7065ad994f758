/**
 * Resolving one polygon against GDACS (api/internal/ingestor/gdacs.go): what a request's outcome
 * is, which features match, and what the whole episode scan concludes. Everything the outside
 * world does is a parameter.
 */
module Gdacs {
  import opened Wrappers
  import opened Geometry
  import opened Marker
  import opened Coordinates

  const MAX_GDACS_EPISODES: nat := 100

  // ---------------------------------------------------------------- requests

  /** A response body: it may break while being read, or hold something that does not decode. */
  datatype Body<+T> = BrokenBody | Undecodable | Decoded(value: T)

  datatype Reply<+T> = TransportError | HttpReply(status: int, body: Body<T>)

  /** The outcome of one request: an answer, a 404, or no usable answer. */
  datatype Fetched<+T> = Fetched(value: T) | NotFound | Unavailable

  function Classify<T>(reply: Reply<T>): Fetched<T> {
    match reply
    case TransportError => Unavailable
    case HttpReply(status, body) =>
      if status == 404 then NotFound
      else if status != 200 || !body.Decoded? then Unavailable
      else Fetched(body.value)
  }

  // ---------------------------------------------------------------- payloads

  /** A JSON text: the value it decodes to and how it was spelled. Equal texts decode alike. */
  datatype RawJson = RawJson(value: Json, spelling: string)

  datatype EventProperties = EventProperties(episodeID: Option<int>, episodes: Option<seq<string>>)
  datatype EventData = EventData(properties: Option<EventProperties>)

  datatype FeatureGeometry =
    | MissingGeometry
    | NullGeometry
    | MalformedGeometry
    | Shape(kind: string, coordinates: Option<RawJson>)

  datatype Feature = Feature(class_: string, geometry: FeatureGeometry)
  datatype FeatureCollection = FeatureCollection(features: Option<seq<Feature>>)

  /** A geometry taken from GDACS; coordinates is the text of its GeoJSON coordinates member. */
  datatype GdacsGeometry = GdacsGeometry(
    coordinates: RawJson, lon: real, lat: real, episodeID: nat, vertices: nat, transposed: bool)

  datatype Resolution = Resolved(geom: GdacsGeometry) | Unverifiable | UpstreamFailure

  /** How many episodes an event answer declares; None when it is not an answer at all. */
  function DeclaredEpisodes(event: EventData): Option<int> {
    match event.properties
    case None => None
    case Some(p) =>
      if p.episodes.None? && p.episodeID.None? then None
      else
        var listed := if p.episodes.Some? then |p.episodes.value| else 0;
        if listed == 0 && p.episodeID.Some? then Some(p.episodeID.value) else Some(listed)
  }

  // ---------------------------------------------------------------- features

  predicate IsAffectedPolygon(f: Feature) {
    f.class_ == "Poly_Affected" && f.geometry.Shape? && f.geometry.kind == "Polygon"
  }

  predicate HasCoordinatesArray(g: FeatureGeometry) {
    g.Shape? && g.coordinates.Some? && g.coordinates.value.value.Array?
  }

  /** The feature cannot be read as an answer, so its episode was not seen. */
  predicate Unreadable(f: Feature) {
    match f.geometry
    case MissingGeometry => true
    case NullGeometry => false
    case MalformedGeometry => true
    case Shape(kind, coordinates) =>
      || f.class_ == "" || kind == ""
      || (IsAffectedPolygon(f) &&
          (!HasCoordinatesArray(f.geometry)
           || (coordinates.value.value.items != [] && Collect(coordinates.value.value) == [])))
  }

  /** The feature is a readable affected polygon whose positions correspond to the EONET ring. */
  predicate Matches(f: Feature, ring: seq<Position>) {
    && IsAffectedPolygon(f) && HasCoordinatesArray(f.geometry)
    && var positions := Collect(f.geometry.coordinates.value.value);
       |positions| > 0 && AllInWgs84(positions) && Corresponds(ring, positions)
  }

  function GeometryOf(f: Feature, ring: seq<Position>, ep: nat): (g: GdacsGeometry)
    requires Matches(f, ring)
    ensures g.episodeID == ep && g.coordinates == f.geometry.coordinates.value
  {
    var text := f.geometry.coordinates.value;
    var positions := Collect(text.value);
    var marker := MarkerOf(positions);
    GdacsGeometry(text, marker.lon, marker.lat, ep, |positions|, !SameRing(ring, positions))
  }

  /** The candidates among the features of one episode, in order. */
  function Candidates(features: seq<Feature>, ring: seq<Position>, ep: nat): seq<GdacsGeometry> {
    if features == [] then []
    else
      var f := features[|features| - 1];
      Candidates(features[..|features| - 1], ring, ep) + if Matches(f, ring) then [GeometryOf(f, ring, ep)] else []
  }

  // ---------------------------------------------------------------- one resolution

  /** What one resolution gets to see, budget refusals included. Requests are the event, then episodes 1, 2, ... */
  datatype Answers = Answers(
    usableReference: bool,
    event: Fetched<EventData>,
    episode: nat -> Fetched<FeatureCollection>,
    cancelledBefore: nat -> bool)

  function FeaturesOf(answer: Fetched<FeatureCollection>): seq<Feature> {
    if answer.Fetched? && answer.value.features.Some? then answer.value.features.value else []
  }

  /** GDACS answered for this episode, and every feature of the answer could be read. */
  predicate Answered(answer: Fetched<FeatureCollection>) {
    || answer.NotFound?
    || (answer.Fetched? && answer.value.features.Some?
        && forall i :: 0 <= i < |answer.value.features.value| ==> !Unreadable(answer.value.features.value[i]))
  }

  predicate CompleteScan(a: Answers, n: nat) {
    n <= MAX_GDACS_EPISODES
    && forall ep :: 1 <= ep <= n ==> !a.cancelledBefore(ep) && Answered(a.episode(ep))
  }

  /** All candidates of episodes 1..n, lowest episode first. */
  function AllCandidates(a: Answers, ring: seq<Position>, n: nat): seq<GdacsGeometry> {
    if n == 0 then [] else AllCandidates(a, ring, n - 1) + Candidates(FeaturesOf(a.episode(n)), ring, n)
  }

  predicate OneGeometry(cs: seq<GdacsGeometry>) {
    cs != [] && forall i :: 0 <= i < |cs| ==> cs[i].coordinates == cs[0].coordinates
  }

  function Resolve(ring: seq<Position>, a: Answers): Resolution {
    if !a.usableReference || ring == [] then Unverifiable
    else match a.event
      case NotFound => Unverifiable
      case Unavailable => UpstreamFailure
      case Fetched(event) =>
        match DeclaredEpisodes(event)
        case None => UpstreamFailure
        case Some(n) =>
          if n <= 0 then Unverifiable
          else if !CompleteScan(a, n) then UpstreamFailure
          else
            var cs := AllCandidates(a, ring, n);
            if OneGeometry(cs) then Resolved(cs[0]) else Unverifiable
  }

  // ---------------------------------------------------------------- the exact characterisation

  /** The answers to scan are there: a usable reference, a ring, and a declared number of episodes. */
  predicate Scannable(ring: seq<Position>, a: Answers) {
    a.usableReference && ring != [] && a.event.Fetched?
    && DeclaredEpisodes(a.event.value).Some? && DeclaredEpisodes(a.event.value).value > 0
  }

  function EpisodeCount(a: Answers): nat
    requires a.event.Fetched? && DeclaredEpisodes(a.event.value).Some? && DeclaredEpisodes(a.event.value).value > 0
  {
    DeclaredEpisodes(a.event.value).value
  }

  /** Some feature of episode ep matches the ring and carries this text. */
  ghost predicate MatchAt(a: Answers, ring: seq<Position>, ep: nat, text: RawJson) {
    exists f :: f in FeaturesOf(a.episode(ep)) && Matches(f, ring) && f.geometry.coordinates.value == text
  }

  ghost predicate MatchUpTo(a: Answers, ring: seq<Position>, n: nat, text: RawJson) {
    exists ep :: 1 <= ep <= n && MatchAt(a, ring, ep, text)
  }

  /** All matches carry one text; the resolver compares texts, not positions. */
  ghost predicate ExactlyOneText(a: Answers, ring: seq<Position>, n: nat) {
    exists text :: MatchUpTo(a, ring, n, text)
      && forall other :: MatchUpTo(a, ring, n, other) ==> other == text
  }

  /** What a resolved geometry is: GDACS's own text, seen from the lowest matching episode. */
  ghost predicate IsTheRing(a: Answers, ring: seq<Position>, n: nat, g: GdacsGeometry) {
    var positions := Collect(g.coordinates.value);
    && 1 <= g.episodeID <= n && MatchAt(a, ring, g.episodeID, g.coordinates)
    && (forall ep, text :: 1 <= ep < g.episodeID ==> !MatchAt(a, ring, ep, text))
    && (forall text :: MatchUpTo(a, ring, n, text) ==> text == g.coordinates)
    && |positions| == |ring| == g.vertices && g.vertices > 0
    && AllInWgs84(positions) && Corresponds(ring, positions)
    && Position(g.lon, g.lat) == MarkerOf(positions)
    && g.transposed == !SameRing(ring, positions)
  }

  lemma {:induction false} CandidatesAreMatches(features: seq<Feature>, ring: seq<Position>, ep: nat)
    ensures forall c :: c in Candidates(features, ring, ep) ==>
              exists f :: f in features && Matches(f, ring) && c == GeometryOf(f, ring, ep)
    ensures forall f :: f in features && Matches(f, ring) ==>
              GeometryOf(f, ring, ep) in Candidates(features, ring, ep)
  {
    if features != [] {
      var n := |features| - 1;
      CandidatesAreMatches(features[..n], ring, ep);
      assert features == features[..n] + [features[n]];
      assert forall c :: c in Candidates(features[..n], ring, ep) ==> c in Candidates(features, ring, ep);
    }
  }

  /** Every candidate is a match in its own episode, and every match is a candidate. */
  lemma {:induction false} AllCandidatesAreMatches(a: Answers, ring: seq<Position>, n: nat)
    ensures forall c :: c in AllCandidates(a, ring, n) ==>
              1 <= c.episodeID <= n
              && exists f :: f in FeaturesOf(a.episode(c.episodeID)) && Matches(f, ring)
                          && c == GeometryOf(f, ring, c.episodeID)
    ensures forall ep, f :: 1 <= ep <= n && f in FeaturesOf(a.episode(ep)) && Matches(f, ring) ==>
              GeometryOf(f, ring, ep) in AllCandidates(a, ring, n)
  {
    if n > 0 {
      AllCandidatesAreMatches(a, ring, n - 1);
      CandidatesAreMatches(FeaturesOf(a.episode(n)), ring, n);
    }
  }

  predicate LowestFirst(cs: seq<GdacsGeometry>, n: nat) {
    forall i :: 0 <= i < |cs| ==> cs[0].episodeID <= cs[i].episodeID <= n
  }

  lemma LowestFirstAppend(cs: seq<GdacsGeometry>, ds: seq<GdacsGeometry>, n: nat)
    requires n > 0 && LowestFirst(cs, n - 1)
    requires forall i :: 0 <= i < |ds| ==> ds[i].episodeID == n
    ensures LowestFirst(cs + ds, n)
  {
  }

  /** Candidates come in episode order, so the first one is of the lowest episode. */
  lemma {:induction false} FirstIsLowest(a: Answers, ring: seq<Position>, n: nat)
    ensures LowestFirst(AllCandidates(a, ring, n), n)
  {
    if n > 0 {
      FirstIsLowest(a, ring, n - 1);
      EpisodeOfCandidates(FeaturesOf(a.episode(n)), ring, n);
      LowestFirstAppend(AllCandidates(a, ring, n - 1), Candidates(FeaturesOf(a.episode(n)), ring, n), n);
    }
  }

  lemma {:induction false} EpisodeOfCandidates(features: seq<Feature>, ring: seq<Position>, ep: nat)
    ensures forall i :: 0 <= i < |Candidates(features, ring, ep)| ==> Candidates(features, ring, ep)[i].episodeID == ep
  {
    if features != [] {
      EpisodeOfCandidates(features[..|features| - 1], ring, ep);
    }
  }

  lemma MatchUpToIsCandidate(a: Answers, ring: seq<Position>, n: nat, text: RawJson)
    ensures MatchUpTo(a, ring, n, text) <==> exists c :: c in AllCandidates(a, ring, n) && c.coordinates == text
  {
    AllCandidatesAreMatches(a, ring, n);
    if MatchUpTo(a, ring, n, text) {
      var ep :| 1 <= ep <= n && MatchAt(a, ring, ep, text);
      var f :| f in FeaturesOf(a.episode(ep)) && Matches(f, ring) && f.geometry.coordinates.value == text;
      assert GeometryOf(f, ring, ep) in AllCandidates(a, ring, n);
    }
    if c :| c in AllCandidates(a, ring, n) && c.coordinates == text {
      assert MatchAt(a, ring, c.episodeID, text);
    }
  }

  lemma OneGeometryIffOneText(a: Answers, ring: seq<Position>, n: nat)
    ensures OneGeometry(AllCandidates(a, ring, n)) <==> ExactlyOneText(a, ring, n)
  {
    var cs := AllCandidates(a, ring, n);
    forall text ensures MatchUpTo(a, ring, n, text) <==> exists c :: c in cs && c.coordinates == text {
      MatchUpToIsCandidate(a, ring, n, text);
    }
    if OneGeometry(cs) {
      assert cs[0] in cs;
      assert MatchUpTo(a, ring, n, cs[0].coordinates);
    }
    if ExactlyOneText(a, ring, n) {
      var text :| MatchUpTo(a, ring, n, text) && forall other :: MatchUpTo(a, ring, n, other) ==> other == text;
      forall i | 0 <= i < |cs| ensures cs[i].coordinates == text {
        assert cs[i] in cs;
        assert MatchUpTo(a, ring, n, cs[i].coordinates);
      }
    }
  }

  /**
   * OK exactly when the reference is usable, every declared episode was completely answered before
   * cancellation, and exactly one distinct ring matches; and then it is that ring.
   */
  lemma ResolvedExactly(ring: seq<Position>, a: Answers)
    ensures Resolve(ring, a).Resolved?
       <==> (Scannable(ring, a) && CompleteScan(a, EpisodeCount(a)) && ExactlyOneText(a, ring, EpisodeCount(a)))
    ensures Resolve(ring, a).Resolved? ==> IsTheRing(a, ring, EpisodeCount(a), Resolve(ring, a).geom)
  {
    if Scannable(ring, a) && CompleteScan(a, EpisodeCount(a)) {
      var n := EpisodeCount(a);
      OneGeometryIffOneText(a, ring, n);
      if OneGeometry(AllCandidates(a, ring, n)) {
        FirstCandidateIsTheRing(a, ring, n);
      }
    }
  }

  lemma FirstCandidateIsTheRing(a: Answers, ring: seq<Position>, n: nat)
    requires OneGeometry(AllCandidates(a, ring, n))
    ensures IsTheRing(a, ring, n, AllCandidates(a, ring, n)[0])
  {
    var cs := AllCandidates(a, ring, n);
    var g := cs[0];
    AllCandidatesAreMatches(a, ring, n);
    var f :| f in FeaturesOf(a.episode(g.episodeID)) && Matches(f, ring) && g == GeometryOf(f, ring, g.episodeID);
    assert MatchAt(a, ring, g.episodeID, g.coordinates);
    OnlyText(a, ring, n);
    NoEarlierMatch(a, ring, n);
  }

  lemma OnlyText(a: Answers, ring: seq<Position>, n: nat)
    requires OneGeometry(AllCandidates(a, ring, n))
    ensures forall text :: MatchUpTo(a, ring, n, text) ==> text == AllCandidates(a, ring, n)[0].coordinates
  {
    forall text | MatchUpTo(a, ring, n, text) ensures text == AllCandidates(a, ring, n)[0].coordinates {
      MatchUpToIsCandidate(a, ring, n, text);
    }
  }

  lemma MatchHasCandidate(a: Answers, ring: seq<Position>, n: nat, ep: nat, text: RawJson)
    requires 1 <= ep <= n && MatchAt(a, ring, ep, text)
    ensures exists i :: 0 <= i < |AllCandidates(a, ring, n)| && AllCandidates(a, ring, n)[i].episodeID == ep
  {
    AllCandidatesAreMatches(a, ring, n);
    var f :| f in FeaturesOf(a.episode(ep)) && Matches(f, ring) && f.geometry.coordinates.value == text;
    assert GeometryOf(f, ring, ep) in AllCandidates(a, ring, n);
  }

  lemma NoEarlierMatch(a: Answers, ring: seq<Position>, n: nat)
    requires AllCandidates(a, ring, n) != []
    ensures forall ep, text :: 1 <= ep < AllCandidates(a, ring, n)[0].episodeID ==> !MatchAt(a, ring, ep, text)
  {
    FirstIsLowest(a, ring, n);
    forall ep, text | 1 <= ep < AllCandidates(a, ring, n)[0].episodeID && MatchAt(a, ring, ep, text) ensures false {
      MatchHasCandidate(a, ring, n, ep, text);
    }
  }

  /** A refusal always means that GDACS answered, or was never asked. */
  lemma UnverifiableExactly(ring: seq<Position>, a: Answers)
    ensures Resolve(ring, a).Unverifiable?
       <==> (|| !a.usableReference || ring == []
             || a.event.NotFound?
             || (a.event.Fetched? && DeclaredEpisodes(a.event.value).Some? && DeclaredEpisodes(a.event.value).value <= 0)
             || (Scannable(ring, a) && CompleteScan(a, EpisodeCount(a))
                 && !ExactlyOneText(a, ring, EpisodeCount(a))))
  {
    if Scannable(ring, a) && CompleteScan(a, EpisodeCount(a)) {
      OneGeometryIffOneText(a, ring, EpisodeCount(a));
    }
  }

  /** Taking away one episode's answer always turns the result into an outage, whatever it was before. */
  lemma OutageNeverResolves(ring: seq<Position>, a: Answers, ep: nat)
    requires Scannable(ring, a) && 1 <= ep <= EpisodeCount(a)
    ensures Resolve(ring, a.(episode := (e: nat) => if e == ep then Unavailable else a.episode(e))) == UpstreamFailure
    ensures Resolve(ring, a.(cancelledBefore := (e: nat) => e == ep || a.cancelledBefore(e))) == UpstreamFailure
  {
    var broken := a.(episode := (e: nat) => if e == ep then Unavailable else a.episode(e));
    assert !Answered(broken.episode(ep));
    var stopped := a.(cancelledBefore := (e: nat) => e == ep || a.cancelledBefore(e));
    assert stopped.cancelledBefore(ep);
  }

  // ---------------------------------------------------------------- one ring in two spellings

  /** Something matches, and all matches have the same positions. */
  ghost predicate OneRing(a: Answers, ring: seq<Position>, n: nat) {
    exists text :: MatchUpTo(a, ring, n, text)
      && forall other :: MatchUpTo(a, ring, n, other) ==> Collect(other.value) == Collect(text.value)
  }

  /** All matches are spelled alike. */
  ghost predicate SpelledAlike(a: Answers, ring: seq<Position>, n: nat) {
    forall t, u :: MatchUpTo(a, ring, n, t) && MatchUpTo(a, ring, n, u) ==> t == u
  }

  lemma OneTextIffAlike(a: Answers, ring: seq<Position>, n: nat)
    requires OneRing(a, ring, n)
    ensures ExactlyOneText(a, ring, n) <==> SpelledAlike(a, ring, n)
  {
    var text :| MatchUpTo(a, ring, n, text);
    if SpelledAlike(a, ring, n) {
      assert forall other :: MatchUpTo(a, ring, n, other) ==> other == text;
    }
  }

  lemma ScanDecides(ring: seq<Position>, a: Answers)
    requires Scannable(ring, a) && CompleteScan(a, EpisodeCount(a))
    ensures if OneGeometry(AllCandidates(a, ring, EpisodeCount(a))) then Resolve(ring, a).Resolved?
            else Resolve(ring, a).Unverifiable?
  {
  }

  /** A complete scan that found one ring resolves it exactly when every match spells it alike; otherwise it is refused. */
  lemma OneRingResolvedExactly(ring: seq<Position>, a: Answers)
    requires Scannable(ring, a) && CompleteScan(a, EpisodeCount(a)) && OneRing(a, ring, EpisodeCount(a))
    ensures if SpelledAlike(a, ring, EpisodeCount(a)) then Resolve(ring, a).Resolved? else Resolve(ring, a).Unverifiable?
  {
    ScanDecides(ring, a);
    OneTextIffAlike(a, ring, EpisodeCount(a));
    OneGeometryIffOneText(a, ring, EpisodeCount(a));
  }

  function PolygonFeature(text: RawJson): Feature { Feature("Poly_Affected", Shape("Polygon", Some(text))) }

  /** Two episodes, one affected polygon each. */
  function TwoEpisodes(t: RawJson, u: RawJson): Answers {
    Answers(true, Fetched(EventData(Some(EventProperties(Some(2), None)))),
            (ep: nat) => Fetched(FeatureCollection(Some([PolygonFeature(if ep == 1 then t else u)]))),
            (ep: nat) => false)
  }

  /** This text, and no other, matches at this episode. */
  ghost predicate OnlyAt(a: Answers, ring: seq<Position>, ep: nat, text: RawJson) {
    forall other :: MatchAt(a, ring, ep, other) <==> other == text
  }

  lemma OnlyFeatureMatches(a: Answers, ring: seq<Position>, ep: nat, text: RawJson)
    requires FeaturesOf(a.episode(ep)) == [PolygonFeature(text)] && Matches(PolygonFeature(text), ring)
    ensures OnlyAt(a, ring, ep, text)
  {
    assert FeaturesOf(a.episode(ep))[0] in FeaturesOf(a.episode(ep));
  }

  lemma TwoEpisodesScan(ring: seq<Position>, t: RawJson, u: RawJson)
    requires t.value == u.value && Matches(PolygonFeature(t), ring)
    ensures var a := TwoEpisodes(t, u);
            && Scannable(ring, a) && EpisodeCount(a) == 2 && CompleteScan(a, EpisodeCount(a))
            && FeaturesOf(a.episode(1)) == [PolygonFeature(t)] && FeaturesOf(a.episode(2)) == [PolygonFeature(u)]
  {
    var a := TwoEpisodes(t, u);
    assert !Unreadable(PolygonFeature(t)) && !Unreadable(PolygonFeature(u));
    forall ep | 1 <= ep <= 2 ensures Answered(a.episode(ep)) {
    }
  }

  /** Two episodes that serve the same coordinates in two spellings are refused, although there is one ring. */
  lemma TwoSpellingsRefused(ring: seq<Position>, t: RawJson, u: RawJson)
    requires t.value == u.value && t.spelling != u.spelling && Matches(PolygonFeature(t), ring)
    ensures Resolve(ring, TwoEpisodes(t, u)) == Unverifiable
    ensures OneRing(TwoEpisodes(t, u), ring, 2)
  {
    var a := TwoEpisodes(t, u);
    TwoEpisodesScan(ring, t, u);
    OnlyFeatureMatches(a, ring, 1, t);
    OnlyFeatureMatches(a, ring, 2, u);
    TwoTexts(a, ring, t, u, 2);
    OneRingResolvedExactly(ring, a);
  }

  lemma MatchIsUpTo(a: Answers, ring: seq<Position>, n: nat, ep: nat, text: RawJson)
    requires 1 <= ep <= n && MatchAt(a, ring, ep, text)
    ensures MatchUpTo(a, ring, n, text)
  {
  }

  lemma TextIsOneOf(a: Answers, ring: seq<Position>, t: RawJson, u: RawJson, n: nat, other: RawJson)
    requires n == 2 && OnlyAt(a, ring, 1, t) && OnlyAt(a, ring, n, u) && MatchUpTo(a, ring, n, other)
    ensures other == t || other == u
  {
    var ep :| 1 <= ep <= n && MatchAt(a, ring, ep, other);
    assert ep == 1 || ep == n;
  }

  lemma TwoTexts(a: Answers, ring: seq<Position>, t: RawJson, u: RawJson, n: nat)
    requires n == 2 && t.value == u.value && t != u && OnlyAt(a, ring, 1, t) && OnlyAt(a, ring, n, u)
    ensures OneRing(a, ring, n) && !SpelledAlike(a, ring, n)
  {
    MatchIsUpTo(a, ring, n, 1, t);
    MatchIsUpTo(a, ring, n, n, u);
    forall other | MatchUpTo(a, ring, n, other) ensures Collect(other.value) == Collect(t.value) {
      TextIsOneOf(a, ring, t, u, n, other);
    }
  }

  // ---------------------------------------------------------------- axis order

  /** Equal results, except that the transposed flag may differ. */
  predicate SameButTransposed(x: Resolution, y: Resolution) {
    match x
    case Resolved(g) => y.Resolved? && y.geom == g.(transposed := y.geom.transposed)
    case Unverifiable => y.Unverifiable?
    case UpstreamFailure => y.UpstreamFailure?
  }

  predicate SameCandidates(cs: seq<GdacsGeometry>, ds: seq<GdacsGeometry>) {
    |cs| == |ds| && forall i :: 0 <= i < |cs| ==> ds[i] == cs[i].(transposed := ds[i].transposed)
  }

  lemma {:induction false} CandidatesAxisFree(features: seq<Feature>, ring: seq<Position>, ep: nat)
    ensures SameCandidates(Candidates(features, ring, ep), Candidates(features, SwapAll(ring), ep))
  {
    if features != [] {
      var n := |features| - 1;
      CandidatesAxisFree(features[..n], ring, ep);
      if HasCoordinatesArray(features[n].geometry) {
        CorrespondsIsAxisFree(ring, Collect(features[n].geometry.coordinates.value.value));
      }
    }
  }

  lemma {:induction false} AllCandidatesAxisFree(a: Answers, ring: seq<Position>, n: nat)
    ensures SameCandidates(AllCandidates(a, ring, n), AllCandidates(a, SwapAll(ring), n))
  {
    if n > 0 {
      AllCandidatesAxisFree(a, ring, n - 1);
      CandidatesAxisFree(FeaturesOf(a.episode(n)), ring, n);
    }
  }

  /** The axis order EONET happens to publish never changes what GDACS geometry an event gets. */
  lemma ResolveAxisFree(ring: seq<Position>, a: Answers)
    ensures SameButTransposed(Resolve(ring, a), Resolve(SwapAll(ring), a))
  {
    if Scannable(ring, a) {
      AllCandidatesAxisFree(a, ring, EpisodeCount(a));
    }
  }
}
