/**
 * What holds of the events table after any sequence of ingestion runs, and of the counters after
 * any response (processEONETBody in api/internal/ingestor/eonet.go).
 */
module IngestSafety {
  import opened Arithmetic
  import opened Wrappers
  import opened Geometry
  import opened Marker
  import opened Coordinates
  import opened Gdacs
  import opened RunBudgets
  import opened Normalizer
  import opened EventStore
  import opened Ingest

  // ---------------------------------------------------------------- where stored polygons come from

  predicate ServesPolygon(f: Feature) { IsAffectedPolygon(f) && f.geometry.coordinates.Some? }

  /** Every affected polygon that GDACS serves in this session has a text in ok. */
  ghost predicate ServesOnly(s: Session, ok: RawJson -> bool) {
    forall ep: nat, f :: f in FeaturesOf(Classify(s.episode(ep))) && ServesPolygon(f) ==>
      ok(f.geometry.coordinates.value)
  }

  ghost predicate CacheFrom(cache: map<string, Resolution>, ok: RawJson -> bool) {
    forall key :: key in cache && cache[key].Resolved? ==> ok(cache[key].geom.coordinates)
  }

  ghost predicate PolygonsFrom(t: Table, ok: RawJson -> bool) {
    forall id :: id in t && t[id].geometry.PolygonJson? ==> ok(t[id].geometry.coordinates)
  }

  /** Geometry, geometry type and marker of a row agree with each other. */
  predicate RowConsistent(r: Row) {
    match r.geometry
    case NoGeoJson => false
    case PointJson(lon, lat) =>
      && r.longitude == Some(lon) && r.latitude == Some(lat)
      && r.geomType == Some("Point") && Position(lon, lat).InWgs84()
    case PolygonJson(coordinates) =>
      var positions := Collect(coordinates.value);
      && |positions| > 0 && r.geomType == Some("Polygon")
      && r.longitude.Some? && r.latitude.Some?
      && Position(r.longitude.value, r.latitude.value) == MarkerOf(positions)
  }

  predicate TableConsistent(t: Table) { forall id :: id in t ==> RowConsistent(t[id]) }

  ghost predicate Safe(w: World, ok: RawJson -> bool) {
    && UsableCache(w.budget.cache) && CacheFrom(w.budget.cache, ok)
    && PolygonsFrom(w.rows, ok) && TableConsistent(w.rows)
  }

  lemma ResolvedWasServed(b: Budget, e: Event, ring: seq<Position>, s: Session, ok: RawJson -> bool)
    requires ServesOnly(s, ok) && CacheFrom(b.cache, ok)
    ensures var (after, r) := ResolveEvent(b, e, ring, s);
            CacheFrom(after.cache, ok) && (r.Resolved? ==> ok(r.geom.coordinates))
  {
    var a := AnswersOf(s, b.left, b.deadline);
    ResolvedExactly(ring, a);
    if Resolve(ring, a).Resolved? {
      var g := Resolve(ring, a).geom;
      assert MatchAt(a, ring, g.episodeID, g.coordinates);
      var f :| f in FeaturesOf(a.episode(g.episodeID)) && Matches(f, ring) && f.geometry.coordinates.value == g.coordinates;
      assert a.episode(g.episodeID) == Outcome(s, b.left, b.deadline, g.episodeID, s.episode(g.episodeID));
      assert f in FeaturesOf(Classify(s.episode(g.episodeID)));
    }
  }

  lemma StoreIsSafe(w: World, e: Event, g: GeoJson, weather: EventWeather, ok: RawJson -> bool)
    requires Safe(w, ok) && RowConsistent(RowOf(e, g, weather.now))
    requires g.PolygonJson? ==> ok(g.coordinates)
    ensures Safe(Store(w, e, g, weather).world, ok)
  {
  }

  lemma MetadataIsSafe(w: World, e: Event, upstream: bool, weather: EventWeather, ok: RawJson -> bool)
    requires Safe(w, ok)
    ensures Safe(KeepMetadataOnly(w, e, upstream, weather).world, ok)
  {
    MetadataKeepsGeometry(w.rows, e, weather.now, weather.ack);
  }

  lemma PolygonIsSafe(w: World, bbox: Box, e: Event, positions: seq<Position>, weather: EventWeather, ok: RawJson -> bool)
    requires Safe(w, ok) && ServesOnly(weather.session, ok)
    ensures Safe(ProcessPolygon(w, bbox, e, positions, weather).world, ok)
  {
    var (budget, r) := ResolveEvent(w.budget, e, positions, weather.session);
    ResolveEventIsUsable(w.budget, e, positions, weather.session);
    ResolvedWasServed(w.budget, e, positions, weather.session, ok);
    var after := w.(budget := budget);
    assert Safe(after, ok);
    if r.Resolved? {
      var resolved := after.(counters := after.counters.(geomResolved := after.counters.geomResolved + 1));
      assert Safe(resolved, ok);
      StoreIsSafe(resolved, WithGdacsGeometry(e, r.geom), PolygonJson(r.geom.coordinates), weather, ok);
    } else {
      MetadataIsSafe(after, e, r.UpstreamFailure?, weather, ok);
    }
  }

  lemma EventIsSafe(w: World, bbox: Box, raw: RawEvent, weather: EventWeather, ok: RawJson -> bool)
    requires Safe(w, ok) && ServesOnly(weather.session, ok)
    ensures var step := ProcessEvent(w, bbox, raw, weather); step.Done? ==> Safe(step.world, ok)
  {
    var n := Normalize(raw);
    if n.Normalized? && !n.geoJson.NoGeoJson? {
      NormalizedPolygonIsUsable(raw);
      if n.geoJson.PolygonJson? {
        PolygonIsSafe(w, bbox, n.event, PolygonPositions(n.geoJson), weather, ok);
      } else {
        StoreIsSafe(w, n.event, n.geoJson, weather, ok);
      }
    }
  }

  lemma {:induction false} ResponseIsSafe(
      w: World, bbox: Box, raws: seq<RawEvent>, weather: nat -> EventWeather, ok: RawJson -> bool)
    requires Safe(w, ok) && forall i :: 0 <= i < |raws| ==> ServesOnly(weather(i).session, ok)
    ensures Safe(ProcessEvents(w, bbox, raws, weather).world, ok)
  {
    if raws != [] {
      var n := |raws| - 1;
      ResponseIsSafe(w, bbox, raws[..n], weather, ok);
      var before := ProcessEvents(w, bbox, raws[..n], weather);
      EventIsSafe(before.world, bbox, raws[n], weather(n), ok);
    }
  }

  // ---------------------------------------------------------------- any sequence of runs

  /** A run starts with a fresh budget; then responses of its countries arrive. */
  datatype Action =
    | StartRun(now: int)
    | Response(bbox: Box, raws: seq<RawEvent>, weather: nat -> EventWeather)

  function Act(w: World, action: Action): (after: World)
    requires UsableCache(w.budget.cache)
    ensures UsableCache(after.budget.cache)
  {
    match action
    case StartRun(now) => w.(budget := Budget(MAX_GDACS_REQUESTS_PER_RUN, now + GDACS_RUN_BUDGET_MS, map[]))
    case Response(bbox, raws, weather) => ProcessEvents(w, bbox, raws, weather).world
  }

  function History(w: World, actions: seq<Action>): (after: World)
    requires UsableCache(w.budget.cache)
    ensures UsableCache(after.budget.cache)
  {
    if actions == [] then w else Act(History(w, actions[..|actions| - 1]), actions[|actions| - 1])
  }

  ghost predicate ActionServesOnly(action: Action, ok: RawJson -> bool) {
    action.Response? ==> forall i :: 0 <= i < |action.raws| ==> ServesOnly(action.weather(i).session, ok)
  }

  /**
   * Fail closed, over every sequence of runs: if GDACS only ever serves polygons in ok, every
   * polygon in the table is in ok, whatever EONET sends and however writes and requests fail; and
   * every row's geometry, type and marker agree.
   */
  lemma {:induction false} StoredPolygonsComeFromGdacs(w: World, actions: seq<Action>, ok: RawJson -> bool)
    requires Safe(w, ok) && forall i :: 0 <= i < |actions| ==> ActionServesOnly(actions[i], ok)
    ensures Safe(History(w, actions), ok)
  {
    if actions != [] {
      var n := |actions| - 1;
      StoredPolygonsComeFromGdacs(w, actions[..n], ok);
      var before := History(w, actions[..n]);
      if actions[n].Response? {
        ResponseIsSafe(before, actions[n].bbox, actions[n].raws, actions[n].weather, ok);
      }
    }
  }

  // ---------------------------------------------------------------- unresolved polygons change no geometry

  /** Row id is as before: still absent, or with the same geometry columns. */
  predicate RowKept(t: Table, u: Table, id: string) {
    (id in t <==> id in u) && (id in t ==> SameGeometry(t[id], u[id]))
  }

  /** An event changes geometry only under its own id, and only when a verified geometry is written. */
  lemma EventWritesOnlyItsRow(w: World, bbox: Box, raw: RawEvent, weather: EventWeather, id: string)
    requires UsableCache(w.budget.cache)
    requires ProcessEvent(w, bbox, raw, weather).Done?
    requires raw.id != id || !(ProcessEvent(w, bbox, raw, weather).decision in {Stored, NotStored})
    ensures RowKept(w.rows, ProcessEvent(w, bbox, raw, weather).world.rows, id)
  {
    var n := Normalize(raw);
    if n.Normalized? {
      assert n.event.sourceID == raw.id;
      if n.geoJson.PolygonJson? {
        PolygonWritesOnlyItsRow(w, bbox, n.event, PolygonPositions(n.geoJson), weather, id);
      }
    }
  }

  lemma PolygonWritesOnlyItsRow(w: World, bbox: Box, e: Event, positions: seq<Position>, weather: EventWeather, id: string)
    requires UsableCache(w.budget.cache)
    requires var step := ProcessPolygon(w, bbox, e, positions, weather);
             e.sourceID != id || !(step.decision in {Stored, NotStored})
    ensures RowKept(w.rows, ProcessPolygon(w, bbox, e, positions, weather).world.rows, id)
  {
    var (budget, r) := ResolveEvent(w.budget, e, positions, weather.session);
    ResolveEventIsUsable(w.budget, e, positions, weather.session);
    if r.Resolved? {
      StoreKeepsOtherRows(w.(budget := budget), bbox, e, r.geom, weather, id);
    } else {
      MetadataKeepsRow(w.(budget := budget), e, r.UpstreamFailure?, weather, id);
    }
  }

  lemma MetadataKeepsRow(w: World, e: Event, upstream: bool, weather: EventWeather, id: string)
    ensures RowKept(w.rows, KeepMetadataOnly(w, e, upstream, weather).world.rows, id)
  {
    MetadataKeepsGeometry(w.rows, e, weather.now, weather.ack);
  }

  lemma StoreKeepsOtherRows(w: World, bbox: Box, e: Event, g: GdacsGeometry, weather: EventWeather, id: string)
    requires UsableGeometry(g)
    requires e.sourceID != id || !(StoreResolved(w, bbox, e, g, weather).decision in {Stored, NotStored})
    ensures RowKept(w.rows, StoreResolved(w, bbox, e, g, weather).world.rows, id)
  {
  }

  /**
   * If every arrival for an id in a response ends unresolved (or is dropped), its row keeps its
   * geometry, type, coordinates, date and payload, and no row is created for an unknown id.
   */
  lemma {:induction false} UnresolvedKeepsGeometry(
      w: World, bbox: Box, raws: seq<RawEvent>, weather: nat -> EventWeather, id: string)
    requires UsableCache(w.budget.cache)
    requires var o := ProcessEvents(w, bbox, raws, weather);
             |o.decisions| <= |raws| &&
             forall i :: 0 <= i < |o.decisions| && raws[i].id == id ==> !(o.decisions[i] in {Stored, NotStored})
    ensures RowKept(w.rows, ProcessEvents(w, bbox, raws, weather).world.rows, id)
  {
    if raws != [] {
      var n := |raws| - 1;
      var before := ProcessEvents(w, bbox, raws[..n], weather);
      DecisionsFit(w, bbox, raws[..n], weather);
      var o := ProcessEvents(w, bbox, raws, weather);
      assert forall i :: 0 <= i < |before.decisions| ==> o.decisions[i] == before.decisions[i];
      UnresolvedKeepsGeometry(w, bbox, raws[..n], weather, id);
      if before.abort.None? && ProcessEvent(before.world, bbox, raws[n], weather(n)).Done? {
        assert o.decisions[n] == ProcessEvent(before.world, bbox, raws[n], weather(n)).decision;
        EventWritesOnlyItsRow(before.world, bbox, raws[n], weather(n), id);
      }
    }
  }

  /** One decision per event, unless the loop was abandoned. */
  lemma {:induction false} DecisionsFit(w: World, bbox: Box, raws: seq<RawEvent>, weather: nat -> EventWeather)
    requires UsableCache(w.budget.cache)
    ensures var o := ProcessEvents(w, bbox, raws, weather);
            |o.decisions| <= |raws| && (o.abort.None? <==> |o.decisions| == |raws|)
  {
    if raws != [] {
      DecisionsFit(w, bbox, raws[..|raws| - 1], weather);
    }
  }

  /** The resolution an event gets when it is a polygon event that reaches the resolver. */
  function ResolutionOf(w: World, raw: RawEvent, weather: EventWeather): Option<Resolution> {
    var n := Normalize(raw);
    if raw.payloadBytes > MAX_RAW_PAYLOAD_BYTES || !n.Normalized? || !n.geoJson.PolygonJson? || weather.cancelled
    then None
    else Some(ResolveEvent(w.budget, n.event, PolygonPositions(n.geoJson), weather.session).1)
  }

  /** A polygon event whose resolution fails is exactly what ends Unresolved. */
  lemma UnresolvedExactly(w: World, bbox: Box, raw: RawEvent, weather: EventWeather)
    requires UsableCache(w.budget.cache)
    ensures var step := ProcessEvent(w, bbox, raw, weather);
            (step.Done? && step.decision.Unresolved?)
            <==> ResolutionOf(w, raw, weather).Some? && !ResolutionOf(w, raw, weather).value.Resolved?
  {
  }

  /** The row carries this geometry and its marker, and its box meets the country's. */
  predicate WrittenWith(rows: Table, id: string, g: GdacsGeometry, bbox: Box) {
    && id in rows && rows[id].geometry == PolygonJson(g.coordinates)
    && rows[id].longitude == Some(g.lon) && rows[id].latitude == Some(g.lat)
    && UsableGeometry(g) && EnvelopesOverlap(bbox, BoxOf(Collect(g.coordinates.value)))
  }

  lemma StoredWith(w: World, bbox: Box, e: Event, g: GdacsGeometry, weather: EventWeather)
    requires UsableGeometry(g)
    ensures var rows := StoreResolved(w, bbox, e, g, weather).world.rows;
            rows == w.rows || WrittenWith(rows, e.sourceID, g, bbox)
  {
  }

  lemma PolygonWriteIsResolved(w: World, bbox: Box, e: Event, positions: seq<Position>, weather: EventWeather)
    requires UsableCache(w.budget.cache)
    requires !RowKept(w.rows, ProcessPolygon(w, bbox, e, positions, weather).world.rows, e.sourceID)
    ensures var r := ResolveEvent(w.budget, e, positions, weather.session).1;
            r.Resolved? && WrittenWith(ProcessPolygon(w, bbox, e, positions, weather).world.rows, e.sourceID, r.geom, bbox)
  {
    var (budget, r) := ResolveEvent(w.budget, e, positions, weather.session);
    ResolveEventIsUsable(w.budget, e, positions, weather.session);
    if r.Resolved? {
      StoredWith(w.(budget := budget), bbox, e, r.geom, weather);
    } else {
      MetadataKeepsRow(w.(budget := budget), e, r.UpstreamFailure?, weather, e.sourceID);
    }
  }

  /** A row written for a polygon event carries the geometry the resolver returned, not EONET's. */
  lemma WrittenPolygonIsResolved(w: World, bbox: Box, raw: RawEvent, weather: EventWeather)
    requires UsableCache(w.budget.cache) && Normalize(raw).Normalized? && Normalize(raw).geoJson.PolygonJson?
    requires var step := ProcessEvent(w, bbox, raw, weather);
             step.Done? && !RowKept(w.rows, step.world.rows, raw.id)
    ensures var r := ResolutionOf(w, raw, weather);
            && r.Some? && r.value.Resolved?
            && WrittenWith(ProcessEvent(w, bbox, raw, weather).world.rows, raw.id, r.value.geom, bbox)
  {
    var n := Normalize(raw);
    assert n.event.sourceID == raw.id;
    PolygonWriteIsResolved(w, bbox, n.event, PolygonPositions(n.geoJson), weather);
  }

  // ---------------------------------------------------------------- counters

  function Count(ds: seq<Decision>, d: Decision): nat {
    if ds == [] then 0 else Count(ds[..|ds| - 1], d) + if ds[|ds| - 1] == d then 1 else 0
  }

  /** How the counters move over a response, given what became of its events. */
  predicate CountersMoved(before: Counters, after: Counters, ds: seq<Decision>) {
    && after.fetched == before.fetched
    && after.stored == before.stored + Count(ds, Stored)
    && after.skippedBBox == before.skippedBBox + Count(ds, OutsideBBox)
    && after.geomUnresolved == before.geomUnresolved + Count(ds, Unresolved(true)) + Count(ds, Unresolved(false))
    && after.upstreamFailed == before.upstreamFailed + Count(ds, Unresolved(true))
  }

  lemma {:induction false} ResponseCounters(w: World, bbox: Box, raws: seq<RawEvent>, weather: nat -> EventWeather)
    requires UsableCache(w.budget.cache)
    ensures var o := ProcessEvents(w, bbox, raws, weather); CountersMoved(w.counters, o.world.counters, o.decisions)
  {
    if raws != [] {
      var n := |raws| - 1;
      ResponseCounters(w, bbox, raws[..n], weather);
      var before := ProcessEvents(w, bbox, raws[..n], weather);
      if before.abort.None? {
        var step := ProcessEvent(before.world, bbox, raws[n], weather(n));
        if step.Done? {
          StepCounters(before.world, bbox, raws[n], weather(n));
          OneMoreDecision(raws[n], before.world.rows, weather(n).ack, w.counters, before.world.counters,
                          step.world.counters, before.decisions, step.decision);
        }
      }
    }
  }

  /** How the counters move over one event, given the rows before it and how its statement ends. */
  predicate StepMoved(raw: RawEvent, rows: Table, ack: Ack, before: Counters, after: Counters, d: Decision) {
    && after.fetched == before.fetched
    && after.stored == before.stored + OneIf(d.Stored?)
    && after.skippedBBox == before.skippedBBox + OneIf(d.OutsideBBox?)
    && after.geomUnresolved == before.geomUnresolved + OneIf(d.Unresolved?)
    && after.upstreamFailed == before.upstreamFailed + OneIf(d == Unresolved(true))
    && after.storageErrors == before.storageErrors + OneIf(LosesWrite(d, ack))
    && after.metadataOnly == before.metadataOnly + OneIf(d.Unresolved? && ack.Applied? && raw.id in rows)
    && after.geomResolved == before.geomResolved + OneIf(PlacesPolygon(raw, d))
  }

  /** A statement was needed and not acknowledged. */
  predicate LosesWrite(d: Decision, ack: Ack) { d.NotStored? || (d.Unresolved? && !ack.Applied?) }

  /** A polygon event that was resolved, whether or not it was kept. */
  predicate PlacesPolygon(raw: RawEvent, d: Decision) {
    Normalize(raw).Normalized? && Normalize(raw).geoJson.PolygonJson? && (d.Stored? || d.NotStored? || d.OutsideBBox?)
  }

  lemma StepCounters(w: World, bbox: Box, raw: RawEvent, weather: EventWeather)
    requires UsableCache(w.budget.cache) && ProcessEvent(w, bbox, raw, weather).Done?
    ensures var step := ProcessEvent(w, bbox, raw, weather);
            StepMoved(raw, w.rows, weather.ack, w.counters, step.world.counters, step.decision)
  {
    var n := Normalize(raw);
    if n.Normalized? && n.geoJson.PolygonJson? {
      PolygonCounters(w, bbox, raw, n.event, PolygonPositions(n.geoJson), weather);
    }
  }

  predicate IsPolygonEvent(raw: RawEvent, e: Event) {
    raw.id == e.sourceID && Normalize(raw).Normalized? && Normalize(raw).geoJson.PolygonJson?
  }

  lemma PolygonCounters(w: World, bbox: Box, raw: RawEvent, e: Event, positions: seq<Position>, weather: EventWeather)
    requires UsableCache(w.budget.cache) && IsPolygonEvent(raw, e)
    ensures var step := ProcessPolygon(w, bbox, e, positions, weather);
            step.Done? && StepMoved(raw, w.rows, weather.ack, w.counters, step.world.counters, step.decision)
  {
    var (budget, r) := ResolveEvent(w.budget, e, positions, weather.session);
    ResolveEventIsUsable(w.budget, e, positions, weather.session);
    if r.Resolved? {
      ResolvedCounters(w.(budget := budget), bbox, raw, e, r.geom, weather);
    } else {
      UnresolvedCounters(w.(budget := budget), raw, e, r.UpstreamFailure?, weather);
    }
  }

  lemma ResolvedCounters(w: World, bbox: Box, raw: RawEvent, e: Event, g: GdacsGeometry, weather: EventWeather)
    requires UsableGeometry(g) && IsPolygonEvent(raw, e)
    ensures var step := StoreResolved(w, bbox, e, g, weather);
            step.Done? && StepMoved(raw, w.rows, weather.ack, w.counters, step.world.counters, step.decision)
  {
  }

  lemma UnresolvedCounters(w: World, raw: RawEvent, e: Event, upstream: bool, weather: EventWeather)
    requires IsPolygonEvent(raw, e)
    ensures var step := KeepMetadataOnly(w, e, upstream, weather);
            step.Done? && StepMoved(raw, w.rows, weather.ack, w.counters, step.world.counters, step.decision)
  {
  }

  lemma OneMoreDecision(raw: RawEvent, rows: Table, ack: Ack, a: Counters, b: Counters, c: Counters, ds: seq<Decision>, d: Decision)
    requires CountersMoved(a, b, ds) && StepMoved(raw, rows, ack, b, c, d)
    ensures CountersMoved(a, c, ds + [d])
  {
    assert (ds + [d])[..|ds|] == ds;
    assert forall x :: Count(ds + [d], x) == Count(ds, x) + OneIf(d == x);
  }

  // ---------------------------------------------------------------- writes that were lost

  function Tally(n: nat, p: nat -> bool): nat { if n == 0 then 0 else Tally(n - 1, p) + OneIf(p(n - 1)) }

  lemma {:induction false} TallyAgree(n: nat, p: nat -> bool, q: nat -> bool)
    requires forall i: nat :: i < n ==> p(i) == q(i)
    ensures Tally(n, p) == Tally(n, q)
  {
    if n > 0 {
      TallyAgree(n - 1, p, q);
    }
  }

  function LostAt(ds: seq<Decision>, weather: nat -> EventWeather): nat -> bool {
    (i: nat) => i < |ds| && LosesWrite(ds[i], weather(i).ack)
  }

  function PlacedAt(ds: seq<Decision>, raws: seq<RawEvent>): nat -> bool {
    (i: nat) => i < |ds| && i < |raws| && PlacesPolygon(raws[i], ds[i])
  }

  /** Event i was a refused polygon whose row was there by then and was told its metadata. */
  function RefreshedAt(w: World, bbox: Box, raws: seq<RawEvent>, ds: seq<Decision>, weather: nat -> EventWeather): nat -> bool
    requires UsableCache(w.budget.cache)
  {
    (i: nat) => i < |ds| && i < |raws| && ds[i].Unresolved? && weather(i).ack.Applied?
         && raws[i].id in ProcessEvents(w, bbox, raws[..i], weather).world.rows
  }

  /** What the last event of a response adds: nothing, or its decision and its step of the counters. */
  lemma LastEvent(w: World, bbox: Box, raws: seq<RawEvent>, weather: nat -> EventWeather)
    requires UsableCache(w.budget.cache) && raws != []
    ensures var n := |raws| - 1;
            var before, o := ProcessEvents(w, bbox, raws[..n], weather), ProcessEvents(w, bbox, raws, weather);
            (o.decisions == before.decisions && o.world == before.world)
            || (&& |before.decisions| == n && |o.decisions| == |raws| && o.decisions[..n] == before.decisions
                && StepMoved(raws[n], before.world.rows, weather(n).ack, before.world.counters, o.world.counters, o.decisions[n]))
  {
    var n := |raws| - 1;
    var before := ProcessEvents(w, bbox, raws[..n], weather);
    DecisionsFit(w, bbox, raws[..n], weather);
    if before.abort.None? && ProcessEvent(before.world, bbox, raws[n], weather(n)).Done? {
      StepCounters(before.world, bbox, raws[n], weather(n));
    }
  }

  lemma {:induction false} LostCounted(w: World, bbox: Box, raws: seq<RawEvent>, weather: nat -> EventWeather)
    requires UsableCache(w.budget.cache)
    ensures var o := ProcessEvents(w, bbox, raws, weather);
            o.world.counters.storageErrors == w.counters.storageErrors + Tally(|o.decisions|, LostAt(o.decisions, weather))
  {
    if raws != [] {
      var n := |raws| - 1;
      var before, ds := ProcessEvents(w, bbox, raws[..n], weather).decisions, ProcessEvents(w, bbox, raws, weather).decisions;
      LostCounted(w, bbox, raws[..n], weather);
      LastEvent(w, bbox, raws, weather);
      TallyAgree(|before|, LostAt(before, weather), LostAt(ds, weather));
    }
  }

  lemma {:induction false} PlacedCounted(w: World, bbox: Box, raws: seq<RawEvent>, weather: nat -> EventWeather)
    requires UsableCache(w.budget.cache)
    ensures var o := ProcessEvents(w, bbox, raws, weather);
            o.world.counters.geomResolved == w.counters.geomResolved + Tally(|o.decisions|, PlacedAt(o.decisions, raws))
  {
    if raws != [] {
      var n := |raws| - 1;
      var before, ds := ProcessEvents(w, bbox, raws[..n], weather).decisions, ProcessEvents(w, bbox, raws, weather).decisions;
      PlacedCounted(w, bbox, raws[..n], weather);
      DecisionsFit(w, bbox, raws[..n], weather);
      LastEvent(w, bbox, raws, weather);
      TallyAgree(|before|, PlacedAt(before, raws[..n]), PlacedAt(ds, raws));
    }
  }

  lemma {:induction false} RefreshedCounted(w: World, bbox: Box, raws: seq<RawEvent>, weather: nat -> EventWeather)
    requires UsableCache(w.budget.cache)
    ensures var o := ProcessEvents(w, bbox, raws, weather);
            o.world.counters.metadataOnly
            == w.counters.metadataOnly + Tally(|o.decisions|, RefreshedAt(w, bbox, raws, o.decisions, weather))
  {
    if raws != [] {
      var n := |raws| - 1;
      var before, ds := ProcessEvents(w, bbox, raws[..n], weather).decisions, ProcessEvents(w, bbox, raws, weather).decisions;
      RefreshedCounted(w, bbox, raws[..n], weather);
      DecisionsFit(w, bbox, raws[..n], weather);
      LastEvent(w, bbox, raws, weather);
      assert forall i: nat :: i < |before| ==> raws[..n][..i] == raws[..i];
      TallyAgree(|before|, RefreshedAt(w, bbox, raws[..n], before, weather), RefreshedAt(w, bbox, raws, ds, weather));
    }
  }

  /**
   * No write is lost silently: storage errors count exactly the events whose statement was not
   * acknowledged, upserts and metadata updates alike; the two other counters of polygons are as exact.
   */
  lemma WritesAccounted(w: World, bbox: Box, raws: seq<RawEvent>, weather: nat -> EventWeather)
    requires UsableCache(w.budget.cache)
    ensures var o := ProcessEvents(w, bbox, raws, weather);
            var n, b, a := |o.decisions|, w.counters, o.world.counters;
            && a.storageErrors == b.storageErrors + Tally(n, LostAt(o.decisions, weather))
            && a.geomResolved == b.geomResolved + Tally(n, PlacedAt(o.decisions, raws))
            && a.metadataOnly == b.metadataOnly + Tally(n, RefreshedAt(w, bbox, raws, o.decisions, weather))
  {
    LostCounted(w, bbox, raws, weather);
    PlacedCounted(w, bbox, raws, weather);
    RefreshedCounted(w, bbox, raws, weather);
  }

  lemma {:induction false} NotStoredAreLost(ds: seq<Decision>, weather: nat -> EventWeather, n: nat)
    requires n == |ds|
    ensures Count(ds, NotStored) <= Tally(n, LostAt(ds, weather))
  {
    if ds != [] {
      NotStoredAreLost(ds[..n - 1], weather, n - 1);
      TallyAgree(n - 1, LostAt(ds[..n - 1], weather), LostAt(ds, weather));
    }
  }

  lemma {:induction false} EveryDecisionCounted(ds: seq<Decision>)
    ensures |ds| == Count(ds, NotNormalized) + Count(ds, WithoutGeometry) + Count(ds, Unresolved(true))
                  + Count(ds, Unresolved(false)) + Count(ds, OutsideBBox) + Count(ds, Stored) + Count(ds, NotStored)
  {
    if ds != [] {
      EveryDecisionCounted(ds[..|ds| - 1]);
    }
  }

  /**
   * For a fully processed response: fetched = normalize failures + events without geometry + stored
   * + bbox skips + unresolved + failed upserts, and upstream failures are among the unresolved.
   */
  lemma CountersConserved(w: World, bbox: Box, raws: seq<RawEvent>, weather: nat -> EventWeather)
    requires UsableCache(w.budget.cache)
    requires ProcessBody(w, bbox, Some(raws), weather).value.abort.None?
    ensures var o := ProcessBody(w, bbox, Some(raws), weather).value;
            var b, a := w.counters, o.world.counters;
            && a.fetched - b.fetched
               == Count(o.decisions, NotNormalized) + Count(o.decisions, WithoutGeometry)
                + (a.stored - b.stored) + (a.skippedBBox - b.skippedBBox)
                + (a.geomUnresolved - b.geomUnresolved) + Count(o.decisions, NotStored)
            && 0 <= a.upstreamFailed - b.upstreamFailed <= a.geomUnresolved - b.geomUnresolved
            && Count(o.decisions, NotStored) <= a.storageErrors - b.storageErrors
  {
    var start := w.(counters := w.counters.(fetched := w.counters.fetched + |raws|));
    var o := ProcessEvents(start, bbox, raws, weather);
    assert ProcessBody(w, bbox, Some(raws), weather) == Some(o);
    ResponseCounters(start, bbox, raws, weather);
    assert CountersMoved(start.counters, o.world.counters, o.decisions);
    DecisionsFit(start, bbox, raws, weather);
    EveryDecisionCounted(o.decisions);
    WritesAccounted(start, bbox, raws, weather);
    NotStoredAreLost(o.decisions, weather, |o.decisions|);
  }
}
