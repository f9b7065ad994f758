/**
 * One EONET response: the event loop of processEONETBody in api/internal/ingestor/eonet.go, what it
 * writes, what it counts, and why unverified geometry never reaches a row.
 */
module Ingest {
  import opened Wrappers
  import opened Geometry
  import opened Marker
  import opened Coordinates
  import opened Gdacs
  import opened RunBudgets
  import opened Normalizer
  import opened EventStore

  const MAX_RAW_PAYLOAD_BYTES: nat := 256 * 1024

  /** The counters of one country's run. */
  datatype Counters = Counters(
    fetched: nat, stored: nat, skippedBBox: nat, geomResolved: nat, geomUnresolved: nat,
    metadataOnly: nat, upstreamFailed: nat, storageErrors: nat)

  const NO_COUNTS := Counters(0, 0, 0, 0, 0, 0, 0, 0)

  /** What the outside world does while one event is processed. */
  datatype EventWeather = EventWeather(cancelled: bool, session: Session, ack: Ack, now: int)

  datatype World = World(rows: Table, counters: Counters, budget: Budget)

  datatype Abort = Oversized | Cancelled

  /** What became of one event. */
  datatype Decision =
    | NotNormalized
    | WithoutGeometry
    | Unresolved(upstream: bool)
    | OutsideBBox
    | Stored
    | NotStored

  datatype Step = Aborted(reason: Abort) | Done(world: World, decision: Decision)

  predicate WithinBBox(bbox: Box, lon: real, lat: real) {
    lon >= bbox.minLon && lon <= bbox.maxLon && lat >= bbox.minLat && lat <= bbox.maxLat
  }

  // ---------------------------------------------------------------- one event

  /** The write that ends an admitted event. */
  function Store(w: World, e: Event, g: GeoJson, weather: EventWeather): Step {
    var rows := Upserted(w.rows, e, g, weather.now, weather.ack);
    if weather.ack.Applied? then
      Done(w.(rows := rows, counters := w.counters.(stored := w.counters.stored + 1)), Stored)
    else
      Done(w.(rows := rows, counters := w.counters.(storageErrors := w.counters.storageErrors + 1)), NotStored)
  }

  /** An event whose polygon could not be verified: only metadata of an existing row may change. */
  function KeepMetadataOnly(w: World, e: Event, upstream: bool, weather: EventWeather): Step {
    var c := w.counters.(
      geomUnresolved := w.counters.geomUnresolved + 1,
      upstreamFailed := w.counters.upstreamFailed + if upstream then 1 else 0);
    var rows := MetadataUpdated(w.rows, e, weather.now, weather.ack);
    var counters :=
      if !weather.ack.Applied? then c.(storageErrors := c.storageErrors + 1)
      else if e.sourceID in w.rows then c.(metadataOnly := c.metadataOnly + 1)
      else c;
    Done(w.(rows := rows, counters := counters), Unresolved(upstream))
  }

  /** The event as it is stored once GDACS has supplied its geometry. */
  function WithGdacsGeometry(e: Event, g: GdacsGeometry): Event {
    e.(geomType := Some("Polygon"), longitude := Some(g.lon), latitude := Some(g.lat))
  }

  /** The budgeted resolution of a polygon event, under its source URL. */
  function ResolveEvent(b: Budget, e: Event, positions: seq<Position>, s: Session): (Budget, Resolution) {
    ResolveCached(b, if e.sourceURL.Some? then e.sourceURL.value else "", positions, s)
  }

  /** A resolved polygon: kept out if its box misses the country's, stored with GDACS's geometry otherwise. */
  function StoreResolved(w: World, bbox: Box, e: Event, g: GdacsGeometry, weather: EventWeather): Step
    requires UsableGeometry(g)
  {
    var resolved := w.(counters := w.counters.(geomResolved := w.counters.geomResolved + 1));
    if !EnvelopesOverlap(bbox, BoxOf(Collect(g.coordinates.value))) then
      Done(resolved.(counters := resolved.counters.(skippedBBox := resolved.counters.skippedBBox + 1)), OutsideBBox)
    else
      Store(resolved, WithGdacsGeometry(e, g), PolygonJson(g.coordinates), weather)
  }

  function ProcessPolygon(w: World, bbox: Box, e: Event, positions: seq<Position>, weather: EventWeather): Step
    requires UsableCache(w.budget.cache)
  {
    var (budget, r) := ResolveEvent(w.budget, e, positions, weather.session);
    ResolveEventIsUsable(w.budget, e, positions, weather.session);
    var after := w.(budget := budget);
    if !r.Resolved? then KeepMetadataOnly(after, e, r.UpstreamFailure?, weather)
    else StoreResolved(after, bbox, e, r.geom, weather)
  }

  function ProcessEvent(w: World, bbox: Box, raw: RawEvent, weather: EventWeather): Step
    requires UsableCache(w.budget.cache)
  {
    if raw.payloadBytes > MAX_RAW_PAYLOAD_BYTES then Aborted(Oversized)
    else
      var n := Normalize(raw);
      if n.UnsupportedGeometry? then Done(w, NotNormalized)
      else if n.geoJson.NoGeoJson? then Done(w, WithoutGeometry)
      else if weather.cancelled then Aborted(Cancelled)
      else if n.geoJson.PolygonJson? then
        ProcessPolygon(w, bbox, n.event, PolygonPositions(n.geoJson), weather)
      else if !WithinBBox(bbox, n.geoJson.lon, n.geoJson.lat) then
        Done(w.(counters := w.counters.(skippedBBox := w.counters.skippedBBox + 1)), OutsideBBox)
      else Store(w, n.event, n.geoJson, weather)
  }

  /** Every geometry in the cache has positions: the box of a resolved polygon is always defined. */
  predicate UsableCache(cache: map<string, Resolution>) {
    forall key :: key in cache && cache[key].Resolved? ==> UsableGeometry(cache[key].geom)
  }

  /** A resolved geometry has positions, and its point is their marker. */
  predicate UsableGeometry(g: GdacsGeometry) {
    var positions := Collect(g.coordinates.value);
    |positions| > 0 && Position(g.lon, g.lat) == MarkerOf(positions)
  }

  lemma ResolvedIsUsable(ring: seq<Position>, a: Answers)
    ensures Resolve(ring, a).Resolved? ==> UsableGeometry(Resolve(ring, a).geom)
  {
    ResolvedExactly(ring, a);
  }

  lemma ResolveEventIsUsable(b: Budget, e: Event, ring: seq<Position>, s: Session)
    requires UsableCache(b.cache)
    ensures var (after, r) := ResolveEvent(b, e, ring, s);
            UsableCache(after.cache) && (r.Resolved? ==> UsableGeometry(r.geom))
  {
    ResolvedIsUsable(ring, AnswersOf(s, b.left, b.deadline));
  }

  // ---------------------------------------------------------------- a whole response

  datatype Progress = Progress(world: World, decisions: seq<Decision>, abort: Option<Abort>)

  function ProcessEvents(w: World, bbox: Box, raws: seq<RawEvent>, weather: nat -> EventWeather): (o: Progress)
    requires UsableCache(w.budget.cache)
    ensures UsableCache(o.world.budget.cache)
  {
    if raws == [] then Progress(w, [], None)
    else
      var n := |raws| - 1;
      var before := ProcessEvents(w, bbox, raws[..n], weather);
      if before.abort.Some? then before
      else
        var step := ProcessEvent(before.world, bbox, raws[n], weather(n));
        StepIsUsable(before.world, bbox, raws[n], weather(n));
        match step
        case Aborted(reason) => before.(abort := Some(reason))
        case Done(world, decision) => Progress(world, before.decisions + [decision], None)
  }

  lemma StepIsUsable(w: World, bbox: Box, raw: RawEvent, weather: EventWeather)
    requires UsableCache(w.budget.cache)
    ensures var step := ProcessEvent(w, bbox, raw, weather); step.Done? ==> UsableCache(step.world.budget.cache)
  {
    var n := Normalize(raw);
    if n.Normalized? && n.geoJson.PolygonJson? {
      ResolveEventIsUsable(w.budget, n.event, PolygonPositions(n.geoJson), weather.session);
    }
  }

  /** The response body, decoded or not; the count of fetched events is taken before the loop. */
  function ProcessBody(w: World, bbox: Box, body: Option<seq<RawEvent>>, weather: nat -> EventWeather): Option<Progress>
    requires UsableCache(w.budget.cache)
  {
    match body
    case None => None
    case Some(raws) =>
      Some(ProcessEvents(w.(counters := w.counters.(fetched := w.counters.fetched + |raws|)), bbox, raws, weather))
  }

  /** All events of a body count as fetched, before any is looked at. */
  lemma BodyIsFetched(w: World, bbox: Box, raws: seq<RawEvent>, weather: nat -> EventWeather, counted: Counters)
    requires UsableCache(w.budget.cache)
    requires counted == Counters(w.counters.fetched + |raws|, w.counters.stored, w.counters.skippedBBox, w.counters.geomResolved,
                                 w.counters.geomUnresolved, w.counters.metadataOnly, w.counters.upstreamFailed, w.counters.storageErrors)
    ensures ProcessBody(w, bbox, Some(raws), weather) == Some(ProcessEvents(World(w.rows, counted, w.budget), bbox, raws, weather))
  {
    assert World(w.rows, counted, w.budget) == w.(counters := w.counters.(fetched := w.counters.fetched + |raws|));
  }

  // ---------------------------------------------------------------- the loop itself

  /** The result of one country's run, updated in place. */
  class IngestResult {
    var eventsFetched: nat
    var eventsStored: nat
    var eventsSkippedBBox: nat
    var eventsGeomResolved: nat
    var eventsGeomUnresolved: nat
    var eventsMetadataOnly: nat
    var eventsGeomUpstreamFailed: nat
    var storageErrors: nat

    function Counts(): Counters
      reads this
    {
      Counters(eventsFetched, eventsStored, eventsSkippedBBox, eventsGeomResolved, eventsGeomUnresolved,
               eventsMetadataOnly, eventsGeomUpstreamFailed, storageErrors)
    }

    constructor ()
      ensures Counts() == NO_COUNTS
    {
      eventsFetched, eventsStored, eventsSkippedBBox, eventsGeomResolved := 0, 0, 0, 0;
      eventsGeomUnresolved, eventsMetadataOnly, eventsGeomUpstreamFailed, storageErrors := 0, 0, 0, 0;
    }
  }

  function WorldOf(store: Events, result: IngestResult, budget: RunBudget): World
    reads store, result, budget
  {
    World(store.rows, result.Counts(), budget.State())
  }

  /** The upsert at the end of the loop body, and its counters. */
  method StoreEvent(store: Events, result: IngestResult, ghost budget: RunBudget, e: Event, g: GeoJson, weather: EventWeather)
    modifies store, result
    ensures Done(WorldOf(store, result, budget), if weather.ack.Applied? then Stored else NotStored)
         == Store(old(WorldOf(store, result, budget)), e, g, weather)
  {
    var ok := store.UpsertEvent(e, g, weather.now, weather.ack);
    if !ok {
      result.storageErrors := result.storageErrors + 1;
    } else {
      result.eventsStored := result.eventsStored + 1;
    }
  }

  /** The unresolved branch: counters, then the metadata-only update. */
  method UpdateMetadataOnly(
      store: Events, result: IngestResult, ghost budget: RunBudget, e: Event, upstream: bool, weather: EventWeather)
    modifies store, result
    ensures Done(WorldOf(store, result, budget), Unresolved(upstream))
         == KeepMetadataOnly(old(WorldOf(store, result, budget)), e, upstream, weather)
  {
    result.eventsGeomUnresolved := result.eventsGeomUnresolved + 1;
    if upstream {
      result.eventsGeomUpstreamFailed := result.eventsGeomUpstreamFailed + 1;
    }
    var ok, updated := store.UpdateEventMetadata(e, weather.now, weather.ack);
    if !ok {
      result.storageErrors := result.storageErrors + 1;
    } else if updated {
      result.eventsMetadataOnly := result.eventsMetadataOnly + 1;
    }
  }

  /** The resolved branch: its counter, the envelope gate and the upsert. */
  method StoreResolvedEvent(
      store: Events, result: IngestResult, ghost budget: RunBudget, bbox: Box, e: Event, geom: GdacsGeometry,
      weather: EventWeather)
    returns (ghost decision: Decision)
    requires UsableGeometry(geom)
    modifies store, result
    ensures Done(WorldOf(store, result, budget), decision)
         == StoreResolved(old(WorldOf(store, result, budget)), bbox, e, geom, weather)
  {
    result.eventsGeomResolved := result.eventsGeomResolved + 1;
    var box := PositionsBBox(Collect(geom.coordinates.value));
    if !EnvelopesOverlap(bbox, box) {
      result.eventsSkippedBBox := result.eventsSkippedBBox + 1;
      return OutsideBBox;
    }
    StoreEvent(store, result, budget, WithGdacsGeometry(e, geom), PolygonJson(geom.coordinates), weather);
    decision := if weather.ack.Applied? then Stored else NotStored;
  }

  /** The polygon branch of the loop body. */
  method ProcessPolygonEvent(
      store: Events, result: IngestResult, budget: RunBudget, bbox: Box, e: Event, g: GeoJson, weather: EventWeather)
    returns (ghost decision: Decision)
    requires budget.Valid() && UsableCache(budget.cache) && PolygonPositions(g) != []
    modifies store, result, budget
    ensures budget.Valid()
    ensures Done(WorldOf(store, result, budget), decision)
         == ProcessPolygon(old(WorldOf(store, result, budget)), bbox, e, PolygonPositions(g), weather)
  {
    var positions := PolygonPositions(g);
    var url := if e.sourceURL.Some? then e.sourceURL.value else "";
    ResolveEventIsUsable(budget.State(), e, positions, weather.session);
    var resolution := budget.ResolveTyped(url, positions, weather.session);
    if !resolution.Resolved? {
      UpdateMetadataOnly(store, result, budget, e, resolution.UpstreamFailure?, weather);
      return Unresolved(resolution.UpstreamFailure?);
    }
    decision := StoreResolvedEvent(store, result, budget, bbox, e, resolution.geom, weather);
  }

  /** The loop body: the world moves as ProcessEvent says, or the loop is abandoned. */
  method ProcessOne(
      store: Events, result: IngestResult, budget: RunBudget, bbox: Box, raw: RawEvent, weather: EventWeather)
    returns (abort: Option<Abort>, ghost decision: Decision)
    requires budget.Valid() && UsableCache(budget.cache)
    modifies store, result, budget
    ensures budget.Valid()
    ensures var step := ProcessEvent(old(WorldOf(store, result, budget)), bbox, raw, weather);
            match abort
            case None => step == Done(WorldOf(store, result, budget), decision)
            case Some(reason) => step == Aborted(reason) && WorldOf(store, result, budget) == old(WorldOf(store, result, budget))
  {
    decision := NotNormalized;
    abort := None;
    if raw.payloadBytes > MAX_RAW_PAYLOAD_BYTES {
      return Some(Oversized), decision;
    }
    var n := Normalize(raw);
    if n.UnsupportedGeometry? {
      return;
    }
    var event, geoJson := n.event, n.geoJson;
    if geoJson.NoGeoJson? {
      decision := WithoutGeometry;
      return;
    }
    if weather.cancelled {
      return Some(Cancelled), decision;
    }
    NormalizedPolygonIsUsable(raw);
    if event.longitude.None? && event.latitude.None? {
      decision := ProcessPolygonEvent(store, result, budget, bbox, event, geoJson, weather);
      return;
    }
    if !WithinBBox(bbox, event.longitude.value, event.latitude.value) {
      result.eventsSkippedBBox := result.eventsSkippedBBox + 1;
      decision := OutsideBBox;
      return;
    }
    StoreEvent(store, result, budget, event, geoJson, weather);
    decision := if weather.ack.Applied? then Stored else NotStored;
  }

  /** The loop over the decoded events, in order. */
  method ProcessAll(
      store: Events, result: IngestResult, budget: RunBudget, bbox: Box,
      raws: seq<RawEvent>, weather: nat -> EventWeather)
    returns (abort: Option<Abort>)
    requires budget.Valid() && UsableCache(budget.cache)
    modifies store, result, budget
    ensures budget.Valid() && UsableCache(budget.cache)
    ensures var o := ProcessEvents(old(WorldOf(store, result, budget)), bbox, raws, weather);
            WorldOf(store, result, budget) == o.world && abort == o.abort
  {
    ghost var start := WorldOf(store, result, budget);
    abort := None;
    for i := 0 to |raws|
      invariant budget.Valid() && UsableCache(budget.cache) && abort.None?
      invariant var o := ProcessEvents(start, bbox, raws[..i], weather);
                o.abort.None? && WorldOf(store, result, budget) == o.world
    {
      assert raws[..i + 1][..i] == raws[..i];
      StepIsUsable(WorldOf(store, result, budget), bbox, raws[i], weather(i));
      ghost var decision;
      abort, decision := ProcessOne(store, result, budget, bbox, raws[i], weather(i));
      if abort.Some? {
        assert ProcessEvents(start, bbox, raws[..i + 1], weather)
            == ProcessEvents(start, bbox, raws[..i], weather).(abort := abort);
        AbortStops(start, bbox, raws, weather, i + 1);
        return;
      }
    }
    assert raws[..|raws|] == raws;
  }

  /** Decode, count, and process every event; the whole effect is ProcessBody's. */
  method ProcessEONETBody(
      store: Events, result: IngestResult, budget: RunBudget, bbox: Box,
      body: Option<seq<RawEvent>>, weather: nat -> EventWeather)
    returns (decoded: bool, abort: Option<Abort>)
    requires budget.Valid() && UsableCache(budget.cache)
    modifies store, result, budget
    ensures budget.Valid() && UsableCache(budget.cache)
    ensures decoded == body.Some?
    ensures !decoded ==> WorldOf(store, result, budget) == old(WorldOf(store, result, budget))
    ensures decoded ==>
              var o := ProcessBody(old(WorldOf(store, result, budget)), bbox, body, weather).value;
              WorldOf(store, result, budget) == o.world && abort == o.abort
  {
    if body.None? {
      return false, None;
    }
    decoded := true;
    result.eventsFetched := result.eventsFetched + |body.value|;
    abort := ProcessAll(store, result, budget, bbox, body.value, weather);
  }

  /** Once the loop is abandoned, the remaining events play no part. */
  lemma {:induction false} AbortStops(w: World, bbox: Box, raws: seq<RawEvent>, weather: nat -> EventWeather, k: nat)
    requires UsableCache(w.budget.cache) && k <= |raws|
    requires ProcessEvents(w, bbox, raws[..k], weather).abort.Some?
    ensures ProcessEvents(w, bbox, raws, weather) == ProcessEvents(w, bbox, raws[..k], weather)
  {
    if k < |raws| {
      assert raws[..|raws| - 1][..k] == raws[..k];
      AbortStops(w, bbox, raws[..|raws| - 1], weather, k);
    } else {
      assert raws[..k] == raws;
    }
  }
}
