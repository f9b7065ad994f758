/**
 * The events table as api/internal/database/db.go writes it: an upsert keyed on source_id and a
 * metadata-only update that never inserts and never touches geometry.
 */
module EventStore {
  import opened Wrappers
  import opened Normalizer

  datatype Row = Row(
    title: string, category: Category, status: Status, sourceURL: Option<string>,
    geometry: GeoJson, geomType: Option<string>, longitude: Option<real>, latitude: Option<real>,
    eventDate: Option<int>, rawPayload: RawEvent, ingestedAt: int)

  type Table = map<string, Row>

  /** How a statement ends: applied, refused, or applied although the caller is told it failed. */
  datatype Ack = Applied | Refused | AppliedUnacknowledged

  function RowOf(e: Event, g: GeoJson, now: int): Row {
    Row(e.title, e.category, e.status, e.sourceURL, g, e.geomType, e.longitude, e.latitude,
        e.eventDate, e.rawPayload, now)
  }

  function Upserted(t: Table, e: Event, g: GeoJson, now: int, ack: Ack): Table {
    if ack.Refused? then t else t[e.sourceID := RowOf(e, g, now)]
  }

  function MetadataUpdated(t: Table, e: Event, now: int, ack: Ack): Table {
    if ack.Refused? || e.sourceID !in t then t
    else t[e.sourceID := t[e.sourceID].(
             title := e.title, category := e.category, status := e.status,
             sourceURL := e.sourceURL, ingestedAt := now)]
  }

  /** The columns that derive from an event's geometry snapshot are the same. */
  predicate SameGeometry(r: Row, s: Row) {
    && r.geometry == s.geometry && r.geomType == s.geomType
    && r.longitude == s.longitude && r.latitude == s.latitude
    && r.eventDate == s.eventDate && r.rawPayload == s.rawPayload
  }

  /** No row appears or disappears, and every row keeps its geometry columns. */
  predicate GeometryKept(t: Table, u: Table) {
    t.Keys == u.Keys && forall id :: id in t ==> SameGeometry(t[id], u[id])
  }

  lemma MetadataKeepsGeometry(t: Table, e: Event, now: int, ack: Ack)
    ensures GeometryKept(t, MetadataUpdated(t, e, now, ack))
    ensures forall id :: id in t && id != e.sourceID ==> MetadataUpdated(t, e, now, ack)[id] == t[id]
  {
  }

  /** The row holds the event, column by column, with this geometry. */
  predicate Holds(r: Row, e: Event, g: GeoJson, now: int) {
    && r.title == e.title && r.category == e.category && r.status == e.status && r.sourceURL == e.sourceURL
    && r.geometry == g && r.geomType == e.geomType && r.longitude == e.longitude && r.latitude == e.latitude
    && r.eventDate == e.eventDate && r.rawPayload == e.rawPayload && r.ingestedAt == now
  }

  /** Unless refused, an upsert leaves the event in the table whether or not it was there; no other row moves. */
  lemma UpsertStores(t: Table, e: Event, g: GeoJson, now: int, ack: Ack)
    ensures var u := Upserted(t, e, g, now, ack);
            && (if ack.Refused? then u == t else e.sourceID in u && Holds(u[e.sourceID], e, g, now))
            && (forall id :: id != e.sourceID ==> (id in t <==> id in u) && (id in t ==> u[id] == t[id]))
  {
  }

  /** Unless refused, the update refreshes a known row's metadata columns, keeps its others, and creates none. */
  lemma MetadataRefreshes(t: Table, e: Event, now: int, ack: Ack)
    ensures var u := MetadataUpdated(t, e, now, ack);
            && u.Keys == t.Keys && (forall id :: id in t && id != e.sourceID ==> u[id] == t[id])
            && (e.sourceID in t ==>
                  var before, after := t[e.sourceID], u[e.sourceID];
                  if ack.Refused? then after == before
                  else
                    && after.title == e.title && after.category == e.category && after.status == e.status
                    && after.sourceURL == e.sourceURL && after.ingestedAt == now
                    && after.geometry == before.geometry && after.geomType == before.geomType
                    && after.longitude == before.longitude && after.latitude == before.latitude
                    && after.eventDate == before.eventDate && after.rawPayload == before.rawPayload)
  {
  }

  class Events {
    var rows: Table

    constructor ()
      ensures rows == map[]
    {
      rows := map[];
    }

    method UpsertEvent(e: Event, g: GeoJson, now: int, ack: Ack) returns (ok: bool)
      modifies this
      ensures rows == Upserted(old(rows), e, g, now, ack)
      ensures ok == ack.Applied?
    {
      if !ack.Refused? {
        rows := rows[e.sourceID := RowOf(e, g, now)];
      }
      ok := ack.Applied?;
    }

    method UpdateEventMetadata(e: Event, now: int, ack: Ack) returns (ok: bool, updated: bool)
      modifies this
      ensures rows == MetadataUpdated(old(rows), e, now, ack)
      ensures ok == ack.Applied?
      ensures updated == (ok && e.sourceID in old(rows))
    {
      if !ack.Refused? && e.sourceID in rows {
        rows := MetadataUpdated(rows, e, now, ack);
      }
      ok := ack.Applied?;
      updated := ok && e.sourceID in rows;
    }
  }
}
