/**
 * From a raw EONET event to the canonical event and its geometry
 * (api/internal/normalizer/normalizer.go).
 */
module Normalizer {
  import opened Wrappers
  import opened Geometry
  import opened Coordinates
  import opened Gdacs

  const MAX_TITLE_RUNES: nat := 512

  /** date is the parsed timestamp, absent when the text is missing or malformed. */
  datatype RawGeometry = RawGeometry(date: Option<int>, kind: string, coordinates: seq<Json>)

  /** A listed source: its validated URL, absent when the URL is refused, and whether its host is GDACS. */
  datatype SourceLink = SourceLink(url: Option<string>, isGdacs: bool)

  datatype RawEvent = RawEvent(
    id: string, title: string, closed: Option<string>, categories: seq<string>,
    sources: seq<SourceLink>, geometries: seq<RawGeometry>, payloadBytes: nat)

  datatype Category = Floods | Wildfires
  datatype Status = Open | Closed

  datatype Event = Event(
    sourceID: string, title: string, category: Category, status: Status,
    geomType: Option<string>, longitude: Option<real>, latitude: Option<real>,
    eventDate: Option<int>, sourceURL: Option<string>, rawPayload: RawEvent)

  datatype GeoJson = NoGeoJson | PointJson(lon: real, lat: real) | PolygonJson(coordinates: RawJson)

  datatype Normalized = UnsupportedGeometry | Normalized(event: Event, geoJson: GeoJson)

  // ---------------------------------------------------------------- the most recent geometry

  /** The choice after looking at the last geometry and then at the first k, in order. */
  function SelectedAfter(gs: seq<RawGeometry>, k: nat): RawGeometry
    requires k < |gs|
  {
    if k == 0 then gs[|gs| - 1]
    else
      var selected := SelectedAfter(gs, k - 1);
      var g := gs[k - 1];
      if g.date.Some? && (selected.date.None? || g.date.value > selected.date.value) then g else selected
  }

  function MostRecent(gs: seq<RawGeometry>): RawGeometry
    requires |gs| > 0
  {
    SelectedAfter(gs, |gs| - 1)
  }

  method SelectMostRecentGeometry(gs: seq<RawGeometry>) returns (selected: RawGeometry)
    requires |gs| > 0
    ensures selected == MostRecent(gs)
  {
    selected := gs[|gs| - 1];
    var selectedDate := selected.date;
    for i := 0 to |gs| - 1
      invariant selected == SelectedAfter(gs, i) && selectedDate == selected.date
    {
      if gs[i].date.Some? {
        if selectedDate.None? || gs[i].date.value > selectedDate.value {
          selected, selectedDate := gs[i], gs[i].date;
        }
      }
    }
  }

  lemma {:induction false} SelectedAfterIsLatest(gs: seq<RawGeometry>, k: nat)
    requires k < |gs|
    ensures var r, last := SelectedAfter(gs, k), gs[|gs| - 1];
            && r in gs
            && (forall i :: 0 <= i < k && gs[i].date.Some? ==> r.date.Some? && gs[i].date.value <= r.date.value)
            && (last.date.Some? ==> r.date.Some? && last.date.value <= r.date.value)
            && (r == last || (r.date.Some? && (last.date.Some? ==> last.date.value < r.date.value)))
  {
    if k > 0 {
      SelectedAfterIsLatest(gs, k - 1);
    }
  }

  /**
   * The chosen geometry is a listed one, no dated geometry is later, and the last one wins unless a
   * strictly later one (or, when it has no date, any dated one) precedes it.
   */
  lemma MostRecentIsLatest(gs: seq<RawGeometry>)
    requires |gs| > 0
    ensures var r, last := MostRecent(gs), gs[|gs| - 1];
            && r in gs
            && (forall g :: g in gs && g.date.Some? ==> r.date.Some? && g.date.value <= r.date.value)
            && (r != last ==> r.date.Some? && (last.date.Some? ==> last.date.value < r.date.value))
  {
    SelectedAfterIsLatest(gs, |gs| - 1);
  }

  // ---------------------------------------------------------------- the source URL

  /** The source after the first k links: the first valid one, replaced for good by the first GDACS one. */
  function FirstValid(links: seq<SourceLink>): Option<string> {
    if links == [] then None
    else
      var before := FirstValid(links[..|links| - 1]);
      if before.Some? then before else links[|links| - 1].url
  }

  function FirstGdacs(links: seq<SourceLink>): Option<string> {
    if links == [] then None
    else
      var before := FirstGdacs(links[..|links| - 1]);
      if before.Some? || !links[|links| - 1].isGdacs then before else links[|links| - 1].url
  }

  function SourceOf(links: seq<SourceLink>): Option<string> {
    if FirstGdacs(links).Some? then FirstGdacs(links) else FirstValid(links)
  }

  lemma {:induction false} FirstGdacsStays(links: seq<SourceLink>, k: nat)
    requires k <= |links| && FirstGdacs(links[..k]).Some?
    ensures FirstGdacs(links) == FirstGdacs(links[..k])
  {
    if k < |links| {
      assert links[..|links| - 1][..k] == links[..k];
      FirstGdacsStays(links[..|links| - 1], k);
    } else {
      assert links[..k] == links;
    }
  }

  /** The loop stops at the first GDACS link and otherwise keeps the first valid one. */
  method SelectSource(links: seq<SourceLink>) returns (url: Option<string>)
    ensures url == SourceOf(links)
  {
    url := None;
    for i := 0 to |links|
      invariant url == FirstValid(links[..i]) && FirstGdacs(links[..i]).None?
    {
      assert links[..i + 1][..i] == links[..i];
      if links[i].url.Some? {
        if url.None? {
          url := links[i].url;
        }
        if links[i].isGdacs {
          url := links[i].url;
          FirstGdacsStays(links, i + 1);
          return;
        }
      }
    }
    assert links[..|links|] == links;
  }

  /** A listed GDACS source is never passed over, wherever it stands in the list. */
  lemma {:induction false} GdacsSourcePreferred(links: seq<SourceLink>)
    ensures (exists i :: 0 <= i < |links| && links[i].isGdacs && links[i].url.Some?)
       <==> (exists i :: 0 <= i < |links| && links[i].isGdacs && links[i].url.Some? && SourceOf(links) == links[i].url
               && forall k :: 0 <= k < i ==> !(links[k].isGdacs && links[k].url.Some?))
    ensures SourceOf(links).Some? <==> exists i :: 0 <= i < |links| && links[i].url.Some?
    ensures (exists i :: 0 <= i < |links| && links[i].isGdacs && links[i].url.Some?)
            || SourceOf(links).None?
            || exists i :: 0 <= i < |links| && SourceOf(links) == links[i].url && forall k :: 0 <= k < i ==> links[k].url.None?
  {
    FirstGdacsSpec(links);
    FirstValidSpec(links);
  }

  lemma {:induction false} FirstGdacsSpec(links: seq<SourceLink>)
    ensures FirstGdacs(links).None? <==> forall i :: 0 <= i < |links| ==> !(links[i].isGdacs && links[i].url.Some?)
    ensures FirstGdacs(links).Some? ==>
              exists i :: 0 <= i < |links| && links[i].isGdacs && links[i].url == FirstGdacs(links)
                && forall k :: 0 <= k < i ==> !(links[k].isGdacs && links[k].url.Some?)
  {
    if links != [] {
      FirstGdacsSpec(links[..|links| - 1]);
    }
  }

  lemma {:induction false} FirstValidSpec(links: seq<SourceLink>)
    ensures FirstValid(links).None? <==> forall i :: 0 <= i < |links| ==> links[i].url.None?
    ensures FirstValid(links).Some? ==>
              exists i :: 0 <= i < |links| && FirstValid(links) == links[i].url && forall k :: 0 <= k < i ==> links[k].url.None?
  {
    if links != [] {
      FirstValidSpec(links[..|links| - 1]);
    }
  }

  // ---------------------------------------------------------------- the event

  predicate IsPointGeometry(g: RawGeometry) {
    g.kind == "Point" && |g.coordinates| == 2
  }

  /** The GeoJSON a geometry yields; None for a refused MultiPolygon. */
  function GeoJsonOf(g: RawGeometry): Option<GeoJson> {
    if IsPointGeometry(g) then
      if g.coordinates[0].Number? && g.coordinates[1].Number?
         && Position(g.coordinates[0].value, g.coordinates[1].value).InWgs84()
      then Some(PointJson(g.coordinates[0].value, g.coordinates[1].value))
      else Some(NoGeoJson)
    else if g.kind == "MultiPolygon" then None
    else if g.kind == "Polygon" && PolygonPlausible(Array(g.coordinates)) then
      Some(PolygonJson(RawJson(Array(g.coordinates), "marshalled")))
    else Some(NoGeoJson)
  }

  function Normalize(raw: RawEvent): Normalized {
    var base := Event(
      raw.id,
      if |raw.title| > MAX_TITLE_RUNES then raw.title[..MAX_TITLE_RUNES] else raw.title,
      if "wildfires" in raw.categories then Wildfires else Floods,
      if raw.closed.Some? && raw.closed.value != "" then Closed else Open,
      None, None, None, None, SourceOf(raw.sources), raw);
    if raw.geometries == [] then Normalized(base, NoGeoJson)
    else
      var g := MostRecent(raw.geometries);
      var geoJson := GeoJsonOf(g);
      if geoJson.None? then UnsupportedGeometry
      else
        var event := base.(geomType := Some(g.kind), eventDate := g.date);
        if geoJson.value.PointJson? then
          Normalized(event.(longitude := Some(geoJson.value.lon), latitude := Some(geoJson.value.lat)), geoJson.value)
        else Normalized(event, geoJson.value)
  }

  /** The positions of a stored polygon text, as the ingest loop reads them back. */
  function PolygonPositions(g: GeoJson): seq<Position> {
    if g.PolygonJson? then Collect(g.coordinates.value) else []
  }

  /** The columns that do not come from a geometry. */
  lemma NormalizedColumns(raw: RawEvent)
    requires Normalize(raw).Normalized?
    ensures var e := Normalize(raw).event;
            && e.sourceID == raw.id && e.rawPayload == raw && e.sourceURL == SourceOf(raw.sources)
            && |e.title| <= 512 && e.title <= raw.title && (e.title == raw.title || |e.title| == 512)
            && (e.category == Wildfires <==> "wildfires" in raw.categories)
            && (e.status == Open <==> raw.closed == None || raw.closed == Some(""))
  {
  }

  /**
   * The geometry is the most recent one listed: a Point is read as longitude, then latitude, and kept if in
   * range; a Polygon is kept as it is if plausible; a MultiPolygon is refused aloud; the rest yields none.
   */
  lemma NormalizedGeometry(raw: RawEvent)
    requires raw.geometries != []
    ensures var n, g := Normalize(raw), MostRecent(raw.geometries);
            && (n.UnsupportedGeometry? <==> g.kind == "MultiPolygon")
            && (n.Normalized? ==>
                  && n.event.eventDate == g.date && n.event.geomType == Some(g.kind)
                  && (n.geoJson.PolygonJson? <==> g.kind == "Polygon" && PolygonPlausible(Array(g.coordinates)))
                  && (n.geoJson.PolygonJson? ==> n.geoJson.coordinates.value == Array(g.coordinates))
                  && forall lon, lat :: n.geoJson == PointJson(lon, lat)
                       <==> g.kind == "Point" && g.coordinates == [Number(lon), Number(lat)]
                            && -180.0 <= lon <= 180.0 && -90.0 <= lat <= 90.0)
  {
  }

  lemma NothingToNormalize(raw: RawEvent)
    requires raw.geometries == []
    ensures Normalize(raw).Normalized? && Normalize(raw).geoJson == NoGeoJson
    ensures Normalize(raw).event.eventDate == None && Normalize(raw).event.geomType == None
  {
  }

  /**
   * After normalisation an event without coordinates but with geometry always has usable polygon
   * positions, all in range: the ingest loop's "unusable polygon geometry" branch is never taken.
   */
  lemma NormalizedPolygonIsUsable(raw: RawEvent)
    requires Normalize(raw).Normalized? && !Normalize(raw).geoJson.NoGeoJson?
    ensures var n := Normalize(raw);
            && (n.event.longitude.Some? <==> n.geoJson.PointJson?)
            && (n.event.latitude.Some? <==> n.geoJson.PointJson?)
            && (n.geoJson.PointJson? ==> (
                  && Position(n.geoJson.lon, n.geoJson.lat).InWgs84()
                  && n.event.longitude == Some(n.geoJson.lon) && n.event.latitude == Some(n.geoJson.lat)))
            && (n.geoJson.PolygonJson? ==> |PolygonPositions(n.geoJson)| > 0 && AllInWgs84(PolygonPositions(n.geoJson)))
  {
    if Normalize(raw).geoJson.PolygonJson? {
      PlausibleHasPositions(Normalize(raw).geoJson.coordinates.value);
    }
  }
}
