/**
 * What becomes of one EONET event, said of the event as it arrives and the row as it ends up
 * (processEONETBody in api/internal/ingestor/eonet.go with the statements of api/internal/database/db.go).
 */
module IngestLaws {
  import opened Wrappers
  import opened Geometry
  import opened Coordinates
  import opened Gdacs
  import opened RunBudgets
  import opened Normalizer
  import opened EventStore
  import opened Ingest
  import opened IngestSafety

  // ---------------------------------------------------------------- the event as it arrives

  /** Within the payload limit of 256 KiB, and reached before the context ended. */
  predicate Reached(raw: RawEvent, weather: EventWeather) { raw.payloadBytes <= 262_144 && !weather.cancelled }

  predicate NewestIs(raw: RawEvent, kind: string, coordinates: seq<Json>) {
    raw.geometries != [] && MostRecent(raw.geometries).kind == kind && MostRecent(raw.geometries).coordinates == coordinates
  }

  predicate AtPoint(raw: RawEvent, lon: real, lat: real) {
    NewestIs(raw, "Point", [Number(lon), Number(lat)]) && -180.0 <= lon <= 180.0 && -90.0 <= lat <= 90.0
  }

  predicate Outlined(raw: RawEvent, coordinates: seq<Json>) {
    NewestIs(raw, "Polygon", coordinates) && PolygonPlausible(Array(coordinates))
  }

  predicate InCountry(bbox: Box, lon: real, lat: real) {
    bbox.minLon <= lon <= bbox.maxLon && bbox.minLat <= lat <= bbox.maxLat
  }

  // ---------------------------------------------------------------- the row as it ends up

  predicate MetadataTells(r: Row, raw: RawEvent) {
    && |r.title| <= 512 && r.title <= raw.title && (r.title == raw.title || |r.title| == 512)
    && (r.category == Wildfires <==> "wildfires" in raw.categories)
    && (r.status == Open <==> raw.closed == None || raw.closed == Some(""))
    && r.sourceURL == SourceOf(raw.sources)
  }

  /** The row is this event's, with this geometry and marker, written at this time. */
  predicate Tells(r: Row, raw: RawEvent, g: GeoJson, kind: string, lon: real, lat: real, now: int) {
    && MetadataTells(r, raw) && raw.geometries != []
    && r.geometry == g && r.geomType == Some(kind) && r.longitude == Some(lon) && r.latitude == Some(lat)
    && r.eventDate == MostRecent(raw.geometries).date && r.rawPayload == raw && r.ingestedAt == now
  }

  predicate Untouched(t: Table, u: Table, id: string) { (id in t <==> id in u) && (id in t ==> u[id] == t[id]) }

  ghost predicate OnlyRow(t: Table, u: Table, id: string) { forall other :: other != id ==> Untouched(t, u, other) }

  /** The upsert of a placed event: counted as it was told, and in the table unless it was refused. */
  predicate Kept(t: Table, step: Step, raw: RawEvent, g: GeoJson, kind: string, lon: real, lat: real, weather: EventWeather) {
    && step.Done? && step.decision == (if weather.ack.Applied? then Stored else NotStored)
    && (if weather.ack.Refused? then step.world.rows == t
        else raw.id in step.world.rows && Tells(step.world.rows[raw.id], raw, g, kind, lon, lat, weather.now))
  }

  predicate LeftOut(t: Table, step: Step) { step.Done? && step.decision == OutsideBBox && step.world.rows == t }

  /** No geometry was written: a known row at most has its metadata refreshed. */
  predicate NotPlaced(t: Table, step: Step, raw: RawEvent, upstream: bool, weather: EventWeather) {
    && step.Done? && step.decision == Unresolved(upstream)
    && step.world.rows.Keys == t.Keys
    && (weather.ack.Refused? ==> step.world.rows == t)
    && (raw.id in t && !weather.ack.Refused? ==>
          && MetadataTells(step.world.rows[raw.id], raw) && step.world.rows[raw.id].ingestedAt == weather.now
          && SameGeometry(t[raw.id], step.world.rows[raw.id]))
  }

  // ---------------------------------------------------------------- the fate of one event

  lemma NormalizedAs(raw: RawEvent)
    requires raw.geometries != [] && Normalize(raw).Normalized?
    ensures var n := Normalize(raw);
            && n.event.sourceID == raw.id && n.event.rawPayload == raw && n.event.sourceURL == SourceOf(raw.sources)
            && n.event.eventDate == MostRecent(raw.geometries).date && n.event.geomType == Some(MostRecent(raw.geometries).kind)
  {
    NormalizedColumns(raw);
    NormalizedGeometry(raw);
  }

  lemma HeldRowTells(r: Row, raw: RawEvent, e: Event, g: GeoJson, kind: string, lon: real, lat: real, now: int)
    requires Normalize(raw).Normalized? && raw.geometries != [] && EventStore.Holds(r, e, g, now)
    requires e == Normalize(raw).event.(geomType := Some(kind), longitude := Some(lon), latitude := Some(lat))
    ensures Tells(r, raw, g, kind, lon, lat, now)
  {
    NormalizedColumns(raw);
    NormalizedAs(raw);
  }

  lemma UpsertKeeps(w: World, raw: RawEvent, e: Event, g: GeoJson, kind: string, lon: real, lat: real, weather: EventWeather)
    requires Normalize(raw).Normalized? && raw.geometries != []
    requires e == Normalize(raw).event.(geomType := Some(kind), longitude := Some(lon), latitude := Some(lat))
    ensures Kept(w.rows, Store(w, e, g, weather), raw, g, kind, lon, lat, weather)
    ensures OnlyRow(w.rows, Store(w, e, g, weather).world.rows, raw.id)
  {
    NormalizedColumns(raw);
    UpsertStores(w.rows, e, g, weather.now, weather.ack);
    if !weather.ack.Refused? {
      HeldRowTells(Store(w, e, g, weather).world.rows[raw.id], raw, e, g, kind, lon, lat, weather.now);
    }
  }

  /** A point event is kept exactly when it lies in the country's box, where EONET says it is. */
  lemma PointFate(w: World, bbox: Box, raw: RawEvent, weather: EventWeather, lon: real, lat: real)
    requires UsableCache(w.budget.cache) && Reached(raw, weather) && AtPoint(raw, lon, lat)
    ensures var step := ProcessEvent(w, bbox, raw, weather);
            && (if InCountry(bbox, lon, lat) then Kept(w.rows, step, raw, PointJson(lon, lat), "Point", lon, lat, weather)
                else LeftOut(w.rows, step))
            && step.Done? && step.world.budget == w.budget && OnlyRow(w.rows, step.world.rows, raw.id)
  {
    NormalizedGeometry(raw);
    var n := Normalize(raw);
    assert n.geoJson == PointJson(lon, lat);
    NormalizedPolygonIsUsable(raw);
    NormalizedAs(raw);
    UpsertKeeps(w, raw, n.event, n.geoJson, "Point", lon, lat, weather);
  }

  function SourceText(raw: RawEvent): string {
    if SourceOf(raw.sources).Some? then SourceOf(raw.sources).value else ""
  }

  /** What the polygon branch does once the resolver has answered. */
  predicate PolygonStep(w: World, bbox: Box, raw: RawEvent, r: Resolution, weather: EventWeather, step: Step) {
    match r
    case Unverifiable => NotPlaced(w.rows, step, raw, false, weather)
    case UpstreamFailure => NotPlaced(w.rows, step, raw, true, weather)
    case Resolved(g) =>
      var positions := Collect(g.coordinates.value);
      && positions != []
      && (if EnvelopesOverlap(bbox, BoxOf(positions))
          then Kept(w.rows, step, raw, PolygonJson(g.coordinates), "Polygon", g.lon, g.lat, weather)
          else LeftOut(w.rows, step))
  }

  /**
   * A polygon event is kept with the polygon and marker the resolver gives for its source and ring, if that
   * polygon's box meets the country's; without one, only metadata of a known row moves.
   */
  lemma PolygonFate(w: World, bbox: Box, raw: RawEvent, weather: EventWeather, coordinates: seq<Json>)
    requires UsableCache(w.budget.cache) && Reached(raw, weather) && Outlined(raw, coordinates)
    ensures var step := ProcessEvent(w, bbox, raw, weather);
            var (budget, r) := ResolveCached(w.budget, SourceText(raw), Collect(Array(coordinates)), weather.session);
            && PolygonStep(w, bbox, raw, r, weather, step)
            && step.Done? && step.world.budget == budget && OnlyRow(w.rows, step.world.rows, raw.id)
  {
    NormalizedGeometry(raw);
    NormalizedAs(raw);
    NormalizedColumns(raw);
    var n := Normalize(raw);
    assert PolygonPositions(n.geoJson) == Collect(Array(coordinates));
    var (budget, r) := ResolveEvent(w.budget, n.event, PolygonPositions(n.geoJson), weather.session);
    ResolveEventIsUsable(w.budget, n.event, PolygonPositions(n.geoJson), weather.session);
    if r.Resolved? {
      ResolvedFate(w.(budget := budget), bbox, raw, r.geom, weather);
    } else {
      UnresolvedFate(w.(budget := budget), raw, r.UpstreamFailure?, weather);
    }
  }

  lemma ResolvedFate(w: World, bbox: Box, raw: RawEvent, g: GdacsGeometry, weather: EventWeather)
    requires Normalize(raw).Normalized? && raw.geometries != [] && UsableGeometry(g)
    ensures var step := StoreResolved(w, bbox, Normalize(raw).event, g, weather);
            PolygonStep(w, bbox, raw, Resolved(g), weather, step) && OnlyRow(w.rows, step.world.rows, raw.id)
  {
    var e := Normalize(raw).event;
    var counted := w.(counters := w.counters.(geomResolved := w.counters.geomResolved + 1));
    UpsertKeeps(counted, raw, WithGdacsGeometry(e, g), PolygonJson(g.coordinates), "Polygon", g.lon, g.lat, weather);
  }

  lemma UnresolvedFate(w: World, raw: RawEvent, upstream: bool, weather: EventWeather)
    requires Normalize(raw).Normalized?
    ensures var step := KeepMetadataOnly(w, Normalize(raw).event, upstream, weather);
            NotPlaced(w.rows, step, raw, upstream, weather) && OnlyRow(w.rows, step.world.rows, raw.id)
  {
    NormalizedColumns(raw);
    MetadataRefreshes(w.rows, Normalize(raw).event, weather.now, weather.ack);
  }

  /** Everything else touches nothing: an oversized event or the end of the context stops the loop. */
  lemma DeadEnds(w: World, bbox: Box, raw: RawEvent, weather: EventWeather)
    requires UsableCache(w.budget.cache)
    requires forall lon, lat :: AtPoint(raw, lon, lat) ==> !Reached(raw, weather)
    requires forall coordinates :: Outlined(raw, coordinates) ==> !Reached(raw, weather)
    ensures var placed := (exists lon, lat :: AtPoint(raw, lon, lat)) || exists coordinates :: Outlined(raw, coordinates);
            ProcessEvent(w, bbox, raw, weather)
            == if raw.payloadBytes > 262_144 then Aborted(Oversized)
               else if placed then Aborted(Cancelled)
               else if raw.geometries != [] && MostRecent(raw.geometries).kind == "MultiPolygon" then Done(w, NotNormalized)
               else Done(w, WithoutGeometry)
  {
    if raw.geometries == [] {
      NothingToNormalize(raw);
    } else {
      NormalizedGeometry(raw);
      var n, g := Normalize(raw), MostRecent(raw.geometries);
      assert n.Normalized? && n.geoJson.PolygonJson? ==> Outlined(raw, g.coordinates);
      assert n.Normalized? && n.geoJson.PointJson? ==> AtPoint(raw, n.geoJson.lon, n.geoJson.lat);
    }
  }

  // ---------------------------------------------------------------- stored means stored

  /** The row is this event's, written at this time, with some geometry. */
  ghost predicate TellsEvent(r: Row, raw: RawEvent, now: int) {
    exists g, kind, lon, lat :: Tells(r, raw, g, kind, lon, lat, now)
  }

  ghost predicate HasEvent(t: Table, raw: RawEvent, now: int) { raw.id in t && TellsEvent(t[raw.id], raw, now) }

  lemma StepLeaves(w: World, bbox: Box, raw: RawEvent, weather: EventWeather)
    requires UsableCache(w.budget.cache) && ProcessEvent(w, bbox, raw, weather).Done?
    ensures var step := ProcessEvent(w, bbox, raw, weather);
            && OnlyRow(w.rows, step.world.rows, raw.id)
            && (step.decision == Stored ==> HasEvent(step.world.rows, raw, weather.now))
  {
    if lon, lat :| AtPoint(raw, lon, lat) && Reached(raw, weather) {
      PointFate(w, bbox, raw, weather, lon, lat);
    } else if coordinates :| Outlined(raw, coordinates) && Reached(raw, weather) {
      PolygonFate(w, bbox, raw, weather, coordinates);
    } else {
      DeadEnds(w, bbox, raw, weather);
    }
  }

  /** The last event of a response played no part, or left its row and only its row. */
  ghost predicate LastLeft(before: Progress, o: Progress, raw: RawEvent, now: int, n: nat) {
    || o.(abort := None) == before.(abort := None)
    || (&& |before.decisions| == n && |o.decisions| == n + 1 && o.decisions[..n] == before.decisions
        && OnlyRow(before.world.rows, o.world.rows, raw.id)
        && (o.decisions[n] == Stored ==> HasEvent(o.world.rows, raw, now)))
  }

  lemma LastLeaves(w: World, bbox: Box, raws: seq<RawEvent>, weather: nat -> EventWeather)
    requires UsableCache(w.budget.cache) && raws != []
    ensures var n := |raws| - 1;
            LastLeft(ProcessEvents(w, bbox, raws[..n], weather), ProcessEvents(w, bbox, raws, weather), raws[n], weather(n).now, n)
  {
    var n := |raws| - 1;
    var before := ProcessEvents(w, bbox, raws[..n], weather);
    DecisionsFit(w, bbox, raws[..n], weather);
    if before.abort.None? && ProcessEvent(before.world, bbox, raws[n], weather(n)).Done? {
      StepLeaves(before.world, bbox, raws[n], weather(n));
    }
  }

  /** Event i was stored, and no later one has its id. */
  predicate StoredLast(ds: seq<Decision>, raws: seq<RawEvent>, i: nat) {
    |ds| <= |raws| && i < |ds| && ds[i] == Stored && forall j :: i < j < |ds| ==> raws[j].id != raws[i].id
  }

  lemma StoredBefore(before: Progress, o: Progress, raws: seq<RawEvent>, now: int, i: nat)
    requires raws != [] && LastLeft(before, o, raws[|raws| - 1], now, |raws| - 1) && StoredLast(o.decisions, raws, i)
    requires |before.decisions| <= |raws| - 1
    ensures if i < |before.decisions| then StoredLast(before.decisions, raws[..|raws| - 1], i) else i == |raws| - 1
  {
  }

  /** The last event leaves what was stored before it alone, and its own row. */
  lemma StandsOn(before: Progress, o: Progress, raws: seq<RawEvent>, now: int, i: nat, stored: int)
    requires raws != [] && LastLeft(before, o, raws[|raws| - 1], now, |raws| - 1) && StoredLast(o.decisions, raws, i)
    requires |before.decisions| <= |raws| - 1 && (i == |raws| - 1 ==> stored == now)
    requires StoredLast(before.decisions, raws[..|raws| - 1], i) ==> HasEvent(before.world.rows, raws[i], stored)
    ensures HasEvent(o.world.rows, raws[i], stored)
  {
    StoredBefore(before, o, raws, now, i);
    if i < |before.decisions| && |o.decisions| == |raws| {
      assert Untouched(before.world.rows, o.world.rows, raws[i].id);
    }
  }

  /** What a response counts as stored is in the table when it ends, unless a later event of that id came by. */
  lemma {:induction false} StoredStands(w: World, bbox: Box, raws: seq<RawEvent>, weather: nat -> EventWeather, i: nat)
    requires UsableCache(w.budget.cache) && StoredLast(ProcessEvents(w, bbox, raws, weather).decisions, raws, i)
    ensures HasEvent(ProcessEvents(w, bbox, raws, weather).world.rows, raws[i], weather(i).now)
  {
    var init := raws[..|raws| - 1];
    if StoredLast(ProcessEvents(w, bbox, init, weather).decisions, init, i) {
      StoredStands(w, bbox, init, weather, i);
    }
    DecisionsFit(w, bbox, init, weather);
    LastLeaves(w, bbox, raws, weather);
    StandsOn(ProcessEvents(w, bbox, init, weather), ProcessEvents(w, bbox, raws, weather), raws,
             weather(|raws| - 1).now, i, weather(i).now);
  }
}
