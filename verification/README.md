# VigilAfrica: verified models

VigilAfrica polls NASA's EONET feed, verifies flood polygons against GDACS, stores events in
Postgres, and alerts when ingestion degrades. This Dafny project models the parts of it where a
mistake would be silent, and proves what they promise for every input, every run and every
interleaving. `dafny verify dfyconfig.toml` checks all of it.

- **Resolver** (`Geometry`, `Marker`, `Rings`, `Coordinates`, `Gdacs`, `RunBudgets`,
  `CacheTransparency`, `ReplyLaws`, `Decimal`): flattening coordinate trees, matching rings in either axis order,
  the scan over episodes, the marker point by scan-line crossings, and the request budget with its
  cache. The server is an arbitrary function from requests to replies, JSON a tree, coordinates are
  reals. The JSON geometry cases follow sections 3.1, 3.1.1 and 3.2 of RFC 7946.
- **Ingestion** (`Normalizer`, `EventStore`, `Fetch`, `Ingest`, `IngestSafety`, `IngestLaws`,
  `Ledger`, `IngestRuns`, `RunSafety`): retries, the event loop and its counters, the events table, the run
  ledger, and what holds of the table after any sequence of runs.
- **Alerts and locks** (`DegradedAlerts`, `SchedulerLease`, `LeasedRuns`, `Scheduler`,
  `StalenessWatchdog`): the once-per-streak alert, the lease lock, runs of several replicas under it,
  the scheduled run over all countries with one budget, and the claim/send/release dedupe, with
  replicas, crashes, failed sends and lost acknowledgements.
- **Limiter and cache** (`TokenBuckets`, `RateLimiter`, `LruSpec`, `ResponseCaches`, `CacheKeys`,
  `CacheMiddleware`): the token bucket, the bounded limiter refining one without bounds, the linked
  LRU cache refining a plain list, and the cache key through query parsing and encoding.
- **Listing and digest** (`Listing`, `Paging`, `Dashboard`, `StringOrder`, `Digest`): the filter clause, the
  total order, paging while rows are re-upserted, the dashboard's pager, and the grouping of the daily
  digest.

Each statement against the database is one step that may be applied, refused, or applied without the
caller learning of it (`EventStore.Ack`). Clock readings, replies and failures are parameters, so
every theorem holds for all of them. Loops and objects that the program updates in place are methods
and classes here, each proved to do what a specification function says; the theorems are about those
functions. Laws in the terms of what comes in and what comes out (status codes, columns, clock
readings, literal limits) say what those functions must compute, without naming the functions they use:
`ReplyLaws` for a resolution, `IngestLaws` for an event and its row, and the lemmas called `...Exactly`
elsewhere.

## What is false of the code as written

These statements would be natural to make. Each fails for an input given as a lemma, and when it does
hold is proved beside it.

- The marker lies outside every hole: true for at most one hole (`MarkerInsideOuterOutsideHole`); for
  more, where they fit, exactly when the polygon of ring anchors does not contain the marker
  (`MarkerOutsideHolesExactly`), for instance when the rings start on one side of the middle latitude
  (`MarkerOutsideEveryHole`). `TwoHolesCanMislead` shows two holes for which it fails.
- The resolver cache never changes a result: its key is only (URL, number of vertices), so it holds
  when those determine the ring up to axis order (`CacheIsTransparent`), and for in-range rings only
  then (`KeyMustDetermineRing`, `SharedKeyMisleads`).
- One ring served twice is one geometry (`api/internal/ingestor/gdacs.go:410-416`): geometries are
  compared as texts, so two spellings of one ring are refused (`TwoSpellingsRefused`); it holds exactly
  when the matches are spelled alike (`OneRingResolvedExactly`).
- `fetchEONET` returns a body or an error: four retried attempts with at most two transient errors
  return neither (`EmptyBodyExactly`, `MixedFailuresLeaveNoBody`). The decode step catches it
  (`NoErrorMeansComplete`).
- The limiter's map stays within its bound: always with non-empty client keys (`CapHolds`); a request
  breaks it exactly when a new client meets a full map whose strictly oldest key is the empty one, which
  is also the eviction loop's mark for "none" (`CapBreaksExactly`, `NothingEvictedExactly`,
  `EmptyKeyBreaksCap`).
- Evictions never change a decision: with one bucket, the requests a, b, a at one instant show they can
  (`EvictionForgives`), and with a TTL under a minute a client alone forgets itself
  (`ShortTtlForgives`). Forgetting a bucket goes unnoticed exactly when it was full again
  (`ForgettableExactly`), which a TTL of at least a minute and no more clients a minute than buckets
  ensure (`BoundedRefinesUnbounded`).
- A degraded streak alerts once: not if alerting is switched off for a run in its middle, because that
  run returns before the carry step (`DisabledRunDeliversTwice`). `StreakAccount` is the exact account,
  `StreakDeliversOnceExactly` says when it is one delivery, and `DeliveriesBoundedByFaults` bounds it.
- A reported failure leaves no healthy row: it does exactly when everything else succeeded and the
  completion was applied without being acknowledged (`LostAcknowledgement`).
- The lease excludes other replicas. Two inputs break it: a run that ends exactly at `locked_until` or
  later (`OverrunBreaksExclusion`), and two replicas with one holder string, which
  `holder = EXCLUDED.holder` lets in (`SharedHolderBreaksExclusion`) and whose releases delete each
  other's row (`ReleaseTakesRowExactly`). The string is host and pid, with one name for every unreadable
  host (`SameHolderExactly`). `IntrusionExactly` says when another replica gets in; over all timely
  executions a fleet excludes exactly when its holder strings are distinct (`MutualExclusion`,
  `ExcludesExactly`).
- The cache key separates requests: it does except for a request without a query whose decoded path
  spells out another's path, question mark and encoded query (`SameKeyExactly`,
  `QuestionMarkInPathShares`).
- Following Next ends on the last page: only up to 1,000,000 pages; beyond them the last reachable page
  keeps offering Next (`NextEndsExactly`).
- Paging shows a row once: not if a write between two pages takes it over the page boundary, by a
  revised `event_date` (`RevisedDateRepeats`) or by a new event ahead of it (`NewEventRepeats`).
  Whatever is written there, a row is shown once exactly when its old and new index are on the same side
  of the boundary (`WritesBetweenPages`); inserts, removals and single revisions are cases of that
  (`InsertBetweenPages`, `RemovalBetweenPages`, `RevisionBetweenPages`), and `WalkVisitsExactly` counts
  for writes between any pages. The comment at `api/internal/database/queries.go:112-124` names the
  cases too.
- The marker is interior "by construction" (`api/internal/ingestor/gdacs.go:543-546`): a ring pinched
  at its middle latitude has an interior and a marker outside it (`PinchedMarkerOutside`). It is
  interior exactly when the horizontal line through the middle of the box meets the interior
  (`MarkerInsideExactly`, `MarkerInsideSimplePolygon`).

## Model

| member | source | states |
|---|---|---|
| Geometry.PositionsBBox | api/internal/ingestor/gdacs.go:583-600 | The box is the tightest one around the positions: it contains them all and each side is touched |
| Geometry.BoxIsTight | api/internal/ingestor/gdacs.go:583-600 | The box computed by running minima and maxima is tight |
| Geometry.TightBoxUnique | api/internal/ingestor/gdacs.go:583-600 | There is only one tight box, so the result cannot depend on the order of the positions |
| Geometry.EnvelopesOverlapIffCommonPoint | api/internal/ingestor/gdacs.go:743-745 | Two non-empty envelopes overlap exactly when some point lies in both |
| Geometry.PositionsCorrespond | api/internal/ingestor/gdacs.go:510-532 | The early-exit loop finds a correspondence exactly when all positions are near in one axis order, and reports "transposed" only if the direct order fails |
| Geometry.CorrespondsIsAxisFree | api/internal/ingestor/gdacs.go:510-532 | Swapping the axes of the EONET ring changes whether rings correspond in no case |
| Geometry.SeparatingRing | api/internal/ingestor/gdacs.go:510-532 | Two in-range rings of one length, neither the other nor its swap, are told apart by an in-range GDACS ring that corresponds to exactly one of them |
| Marker.ScanCrossings | api/internal/ingestor/gdacs.go:554-562 | The loop collects exactly the crossings of the closed sequence with the scan line, in order |
| Marker.WidestSpan | api/internal/ingestor/gdacs.go:571-579 | The loop returns the ends of the first widest of the spans between consecutive pairs |
| Marker.RepresentativePoint | api/internal/ingestor/gdacs.go:550-580 | The point is the midpoint of the widest interior span on the middle latitude, or the centre of the box without two crossings |
| Marker.EvenCrossings | api/internal/ingestor/gdacs.go:554-562 | The half-open rule gives every closed sequence an even number of crossings, for every line |
| Marker.PathParity | api/internal/ingestor/gdacs.go:554-562 | A path crosses a line an odd number of times exactly when its ends lie on different sides |
| Marker.FallbackIffFlat | api/internal/ingestor/gdacs.go:563-568 | There are two or more crossings exactly when two latitudes differ: the fallback is taken only for a flat ring |
| Marker.MarkerInBox | api/internal/ingestor/gdacs.go:550-580 | The marker lies in the bounding box |
| Marker.MarkerInsideExactly | api/internal/ingestor/gdacs.go:543-580 | The marker is an even-odd interior point exactly when the horizontal line through the middle of the box meets the interior at all, and then it is on no edge crossing |
| Marker.MarkerInWidestSpan | api/internal/ingestor/gdacs.go:571-579 | The marker is the midpoint of two crossings at least as far apart as every interior span |
| Marker.CountLeftSort | api/internal/ingestor/gdacs.go:569 | Sorting the crossings changes no count of crossings to the left of a point |
| Rings.FlattenedEvenOdd | api/internal/ingestor/gdacs.go:451-471 | For any number of closed rings, the flattened sequence contains a point exactly when rings around it plus the anchor polygon make an odd number |
| Rings.MarkerInOddManyRings | api/internal/ingestor/gdacs.go:550-580 | The marker lies in an odd number of rings exactly when the polygon of ring anchors does not contain it |
| Rings.MarkerOutsideHolesExactly | api/internal/ingestor/gdacs.go:550-580 | Where the holes lie in the outer ring and do not overlap at the marker, it is inside the outer ring and outside every hole exactly when the polygon of ring anchors does not contain it |
| Rings.MarkerOutsideEveryHole | api/internal/ingestor/gdacs.go:550-580 | For any number of fitting holes, if the rings start on one side of the middle latitude, the marker is inside the outer ring and outside every hole |
| Rings.OneHoleEvenOdd | api/internal/ingestor/gdacs.go:451-471 | For one outer ring and one hole the two connector edges cancel: a point is inside exactly when it is in one of the two |
| Rings.JoinsCancel | api/internal/ingestor/gdacs.go:556-562 | An edge and its reverse cross every line at the same point |
| Rings.MarkerInsideSimplePolygon | api/internal/ingestor/gdacs.go:543-580 | One closed ring: the marker is inside it exactly when the line through the middle of its box meets its interior |
| Rings.PinchedMarkerOutside | api/internal/ingestor/gdacs.go:543-580 | Counterexample: a closed ring of two squares that touch at a pinch on its middle latitude has an interior, and its marker is not in it |
| Rings.MarkerInsideOuterOutsideHole | api/internal/ingestor/gdacs.go:550-580 | One outer ring and one hole: the marker is in exactly one of them, so inside the outer ring and outside a contained hole |
| Rings.TwoHolesCanMislead | api/internal/ingestor/gdacs.go:550-580 | Counterexample: with two holes the marker can lie inside a hole |
| Coordinates.WalkCoordinates | api/internal/normalizer/normalizer.go:222-269 | The recursive walk accepts and counts exactly as the depth-bounded specification says |
| Coordinates.CollectPositions | api/internal/ingestor/gdacs.go:451-471 | The recursive flattening loop returns the positions of the tree in order |
| Coordinates.WalkAgreesWithCollect | api/internal/normalizer/normalizer.go:222-269 | The walker accepts a tree with count n exactly when it is a coordinate tree within the depth bound whose n flattened positions are all in WGS84 range |
| Coordinates.PositionsExactly | api/internal/normalizer/normalizer.go:227-251 | An array that begins with a number is accepted exactly when it holds two numbers or more, nothing else, and the first two are a longitude and a latitude in range |
| Coordinates.LevelsExactly | api/internal/normalizer/normalizer.go:222-269 | Any other non-empty array is accepted exactly when it is at most eight levels down and every item is an accepted array |
| Coordinates.NothingElse | api/internal/normalizer/normalizer.go:222-230 | What is no array, an empty one, or lies more than eight levels down is refused |
| Coordinates.PlausibleExactly | api/internal/normalizer/normalizer.go:215-218 | A polygon is plausible exactly when its coordinates are accepted from the top |
| Coordinates.PlausibleHasPositions | api/internal/normalizer/normalizer.go:215-218 | Plausible polygon coordinates flatten to a non-empty sequence of in-range positions |
| Coordinates.CollectPolygon | api/internal/ingestor/gdacs.go:451-471 | Flattening a polygon concatenates its rings |
| Gdacs.ResolvedExactly | api/internal/ingestor/gdacs.go:259-447 | OK exactly when the reference is usable, all 1..n (n at most 100) declared episodes were completely answered before cancellation, and exactly one distinct polygon text matches; it is that text with its lowest episode |
| Gdacs.UnverifiableExactly | api/internal/ingestor/gdacs.go:259-447 | Unverifiable exactly for a bad reference, an absent or zero-episode event, or a complete scan without exactly one matching text |
| Gdacs.OutageNeverResolves | api/internal/ingestor/gdacs.go:302-432 | Replacing one episode by an outage, or cancelling before it, always yields an upstream failure |
| Gdacs.OneGeometryIffOneText | api/internal/ingestor/gdacs.go:410-437 | The candidates collapse to one geometry exactly when one distinct polygon text matches in the scan |
| Gdacs.OneRingResolvedExactly | api/internal/ingestor/gdacs.go:410-437 | In a complete scan whose matches all have the same positions, the ring resolves exactly when they are also spelled alike, and is refused otherwise |
| Gdacs.TwoSpellingsRefused | api/internal/ingestor/gdacs.go:410-437 | Counterexample: two episodes that serve one ring in two spellings are refused as ambiguous |
| Gdacs.FirstIsLowest | api/internal/ingestor/gdacs.go:438-446 | Candidates come by increasing episode, so the first is one of the lowest episode |
| Gdacs.FirstCandidateIsTheRing | api/internal/ingestor/gdacs.go:410-446 | With one geometry, the first candidate is the matching text, seen in no earlier episode |
| Gdacs.ResolveAxisFree | api/internal/ingestor/gdacs.go:259-447 | Resolving a ring and its coordinate-swapped copy give the same failure, text, marker and episode |
| ReplyLaws.OutageExactly | api/internal/ingestor/gdacs.go:141-172 | Upstream failure exactly when the event can be asked about and the replies do not settle it: only a 404, or a decoded 200 with all of at most 100 episodes told, settles; any other status, a broken or undecodable body, a refused request, a cancellation or one illegible feature does not |
| ReplyLaws.LostReplyIsOutage | api/internal/ingestor/gdacs.go:152-172 | One transport error, status other than 200 and 404, or broken or undecodable 200, for the event or any episode it names, is an upstream failure whatever else was served |
| ReplyLaws.ResolvedFromReplies | api/internal/ingestor/gdacs.go:259-447 | OK exactly when the decoded event names 1 to 100 episodes, each answered 404 or with legible features, and one polygon text is offered: an in-range Poly_Affected that agrees with the ring, vertex for vertex, within 0.0002 degrees in one axis order |
| ReplyLaws.ResolvedIsOffered | api/internal/ingestor/gdacs.go:388-446 | The geometry is the offered text of the earliest episode, with its own marker and axis order |
| ReplyLaws.RefusedFromReplies | api/internal/ingestor/gdacs.go:259-447 | Unverifiable exactly when GDACS was not to be asked, or settled the matter without one polygon |
| RunBudgets.ScanFeature | api/internal/ingestor/gdacs.go:328-407 | One feature contributes its match or nothing, and is called unreadable exactly when it cannot be judged |
| RunBudgets.ScanFeatures | api/internal/ingestor/gdacs.go:328-407 | The feature loop returns all matches of an episode in order and whether anything was unreadable |
| RunBudgets.Choose | api/internal/ingestor/gdacs.go:410-446 | The final choice: one distinct geometry gives its lowest episode, anything else is refused |
| RunBudgets.CacheKeyInjective | api/internal/ingestor/gdacs.go:689 | The cache key determines URL and vertex count, whatever the URL contains |
| RunBudgets.LowestIsFirst | api/internal/ingestor/gdacs.go:438-446 | The loop for the lowest episode ends on the first candidate |
| RunBudgets.RunBudget.constructor | api/internal/ingestor/gdacs.go:654-660 | A fresh budget: 60 requests, 90 seconds, nothing cached, nothing issued |
| RunBudgets.RunBudget.Spend | api/internal/ingestor/gdacs.go:665-674 | A request is granted exactly when one is left and the deadline has not come, and is then recorded as issued |
| RunBudgets.RunBudget.GetJSON | api/internal/ingestor/gdacs.go:141-172 | Every reply, and every refused request, is classified as an answer, an absence or an outage |
| RunBudgets.RunBudget.ScanEpisode | api/internal/ingestor/gdacs.go:312-407 | One episode: its matches, and whether it was completely answered |
| RunBudgets.RunBudget.ScanEpisodes | api/internal/ingestor/gdacs.go:302-408 | The episode loop completes exactly when all episodes were seen, and then holds all candidates |
| RunBudgets.RunBudget.ResolvePolygon | api/internal/ingestor/gdacs.go:259-447 | The whole scan concludes what the specification says, and spends exactly the requests it attempts |
| RunBudgets.RunBudget.ResolveTyped | api/internal/ingestor/gdacs.go:688-716 | The cached resolution: issued plus left stay 60, none issued at or after the deadline, only answers cached, a hit issues nothing |
| RunBudgets.GrantsAreSpent | api/internal/ingestor/gdacs.go:665-674 | A request is granted exactly while one is left and the deadline has not come, and each granted one costs one |
| RunBudgets.RequestsExactly | api/internal/ingestor/gdacs.go:259-318 | Nothing is asked without a reference and a ring, the event alone if it names no episode, else its episodes, 100 at most |
| RunBudgets.EpisodesAsked | api/internal/ingestor/gdacs.go:302-310 | Episodes are asked for in order, up to the first before which the context ended |
| RunBudgets.CachedExactly | api/internal/ingestor/gdacs.go:688-716 | A cached answer is repeated for nothing, a spent budget is an outage, any other answer is kept under its key, and an outage is not |
| CacheTransparency.BudgetOnlyWithholds | api/internal/ingestor/gdacs.go:665-674 | A budget can only turn a result into an outage, never into another answer |
| CacheTransparency.AmpleBudgetWithholdsNothing | api/internal/ingestor/gdacs.go:665-674 | With enough requests and time the budgeted result is the unbudgeted one |
| CacheTransparency.CacheStaysExplained | api/internal/ingestor/gdacs.go:688-716 | Every cached entry is the unbudgeted resolution of an earlier call with its key |
| CacheTransparency.CacheIsTransparent | api/internal/ingestor/gdacs.go:688-716 | Against a fixed world, if URL and vertex count determine the ring up to axis order, cached and uncached resolution agree apart from the transposed flag, or the budget ran out |
| CacheTransparency.AnsweredOnceIsFree | api/internal/ingestor/gdacs.go:688-716 | Over any sequence of calls: once answered, every later call with that key gets the same answer and spends nothing |
| CacheTransparency.SharedKeyMisleads | api/internal/ingestor/gdacs.go:689 | Counterexample: a GDACS polygon that corresponds to exactly one of two rings under one URL and vertex count makes the second call repeat the first one's answer or refusal, against its own |
| CacheTransparency.KeyMustDetermineRing | api/internal/ingestor/gdacs.go:688-716 | For two in-range rings of one URL and vertex count: every fixed world gives the second its uncached answer exactly when it is the first or its swap |
| Normalizer.SelectMostRecentGeometry | api/internal/normalizer/normalizer.go:62-80 | The loop selects the latest parseable geometry |
| Normalizer.MostRecentIsLatest | api/internal/normalizer/normalizer.go:62-80 | The selected geometry is one of those given, and no parseable date is later |
| Normalizer.SelectSource | api/internal/normalizer/normalizer.go:115-132 | The loop selects the source the specification prefers |
| Normalizer.GdacsSourcePreferred | api/internal/normalizer/normalizer.go:115-132 | A valid GDACS link wins wherever it stands, otherwise the first valid link |
| Normalizer.NormalizedPolygonIsUsable | api/internal/normalizer/normalizer.go:84-189 | After normalization a polygon has in-range positions and no point, and any other geometry a point in range: the "unusable polygon geometry" branch is unreachable |
| Normalizer.NormalizedColumns | api/internal/normalizer/normalizer.go:84-132 | Id, payload, title cut at 512, wildfires exactly if listed as such, open exactly without a closing date, and the preferred source |
| Normalizer.NormalizedGeometry | api/internal/normalizer/normalizer.go:136-189 | The most recent geometry decides: a Point is read as longitude, latitude and kept if in range, a Polygon kept unchanged if plausible, a MultiPolygon refused |
| EventStore.Events.UpsertEvent | api/internal/database/db.go:139-184 | The upsert writes exactly the row of the source id, or nothing when refused |
| EventStore.Events.UpdateEventMetadata | api/internal/database/db.go:201-230 | The metadata update touches only an existing row and only its metadata, and says whether there was one |
| EventStore.MetadataKeepsGeometry | api/internal/database/db.go:201-230 | A metadata update creates no row and keeps every geometry column of every row |
| EventStore.UpsertStores | api/internal/database/db.go:139-184 | Unless refused, an upsert leaves a row that holds the event in every column, whether there was one or not, and no other row moves |
| EventStore.MetadataRefreshes | api/internal/database/db.go:201-230 | Unless refused, a known row gets title, category, status, source URL and time of the event and keeps its other columns; no row appears |
| Ingest.StoreEvent | api/internal/ingestor/eonet.go:652-658 | The upsert and its counters |
| Ingest.UpdateMetadataOnly | api/internal/ingestor/eonet.go:566-607 | The unresolved branch: counters, then the metadata-only update |
| Ingest.StoreResolvedEvent | api/internal/ingestor/eonet.go:609-658 | The resolved branch: counter, envelope gate against the country box, upsert with the GDACS geometry |
| Ingest.ProcessPolygonEvent | api/internal/ingestor/eonet.go:551-658 | A polygon event moves the world as the specification says: metadata only unless resolved |
| Ingest.ProcessOne | api/internal/ingestor/eonet.go:513-658 | One event: skipped, stored, kept out, or the loop is abandoned with nothing changed |
| Ingest.ProcessAll | api/internal/ingestor/eonet.go:512-659 | The event loop folds the per-event step over the response, stopping at the first abort |
| Ingest.ProcessEONETBody | api/internal/ingestor/eonet.go:494-662 | A body that does not decode changes nothing; one that does is counted and processed |
| Ingest.BodyIsFetched | api/internal/ingestor/eonet.go:502-513 | All events of a decoded body count as fetched, before any is looked at |
| Ingest.ResolveEventIsUsable | api/internal/ingestor/eonet.go:551-629 | Every resolved geometry, cached or not, has positions and carries their marker, so the box is always defined |
| IngestSafety.ResolvedWasServed | api/internal/ingestor/gdacs.go:259-447 | A resolved geometry is the text of an affected polygon GDACS served in this session or an earlier one of the run |
| IngestSafety.StoredPolygonsComeFromGdacs | api/internal/ingestor/eonet.go:551-658 | Over every sequence of responses and run starts: every polygon in the table was served by GDACS, and each row's geometry, type and marker agree |
| IngestSafety.EventWritesOnlyItsRow | api/internal/ingestor/eonet.go:513-658 | An event changes geometry only under its own id and only when it reached the upsert |
| IngestSafety.UnresolvedKeepsGeometry | api/internal/ingestor/eonet.go:566-607 | If all arrivals of an id in a response are unresolved, its row keeps geometry, type, coordinates, date and payload, and none is created |
| IngestSafety.UnresolvedExactly | api/internal/ingestor/eonet.go:551-607 | An event ends unresolved exactly when its polygon was looked up and not resolved |
| IngestSafety.WrittenPolygonIsResolved | api/internal/ingestor/eonet.go:609-658 | A row changed by a polygon event carries the geometry and marker the resolver returned, and its box meets the country's |
| IngestSafety.ResponseCounters | api/internal/ingestor/eonet.go:512-659 | How each counter moves with the decisions taken |
| IngestSafety.EveryDecisionCounted | api/internal/ingestor/eonet.go:512-659 | The decisions of a response partition its events |
| IngestSafety.CountersConserved | api/internal/ingestor/eonet.go:494-662 | For a fully processed body, fetched = not normalized + without geometry + stored + outside the box + unresolved + failed upserts, and upstream failures are at most the unresolved |
| IngestSafety.WritesAccounted | api/internal/ingestor/eonet.go:553-658 | Over a response: storage errors are exactly the upserts and metadata updates that were not acknowledged, resolved polygons exactly those placed or left out by the box, metadata-only updates exactly those of rows known by then |
| IngestLaws.PointFate | api/internal/ingestor/eonet.go:639-657 | A point event becomes the row of its id, with its longitude and latitude as sent, exactly when it lies in the country's box, and is counted stored exactly if that was acknowledged |
| IngestLaws.PolygonFate | api/internal/ingestor/eonet.go:552-636 | A polygon event becomes the row of its id with the resolver's polygon and marker exactly when resolved and its box meets the country's; otherwise a known row at most gets its metadata refreshed |
| IngestLaws.DeadEnds | api/internal/ingestor/eonet.go:516-541 | Everything else touches nothing: an oversized event or the end of the context abandons the response, a MultiPolygon or missing geometry is passed over |
| IngestLaws.StoredStands | api/internal/ingestor/eonet.go:494-661 | What a response counts as stored is in the table when it ends, column by column, unless a later event has its id |
| Fetch.FetchEONET | api/internal/ingestor/eonet.go:367-482 | A request that cannot be built fails; otherwise the retry loop behaves as the attempt-by-attempt specification |
| Fetch.FetchFrom | api/internal/ingestor/eonet.go:376-481 | The retry loop from any attempt on |
| Fetch.FetchBounded | api/internal/ingestor/eonet.go:367-482 | At most 4 requests and 200 seconds of sleep, whatever the server does |
| Fetch.BoundsAreTight | api/internal/ingestor/eonet.go:367-482 | Both bounds are reached by one reply sequence |
| Fetch.EmptyBodyExactly | api/internal/ingestor/eonet.go:376-481 | An empty body without error comes out exactly when all four attempts are retried, the last for a transient error, with at most two transient errors |
| Fetch.MixedFailuresLeaveNoBody | api/internal/ingestor/eonet.go:376-481 | Counterexample: 429, 429, 500, 500 ends with no error and no body |
| Fetch.BodyComesFromOk | api/internal/ingestor/eonet.go:406-413 | A body is returned only from a status-200 reply that could be read |
| Fetch.AttemptExactly | api/internal/ingestor/eonet.go:376-481 | One attempt in numbers: a readable 200 returns its body; 429 and 503 wait for the hint plus 5 seconds, up to 60, or 5, 10, 20; network errors and other 5xx wait 5, then 15; anything else fails |
| Fetch.BodyExactly | api/internal/ingestor/eonet.go:367-482 | A body is returned exactly when one of the four attempts comes about, all before it having been retried undisturbed, and is answered with it |
| Ledger.IngestionRuns.CreateIngestionRun | api/internal/database/queries.go:256-268 | A running row is appended and its id returned |
| Ledger.IngestionRuns.CompleteIngestionRun | api/internal/database/queries.go:272-294 | Exactly the row of that id is completed; failure and a missing row are reported |
| Ledger.IngestionRuns.MarkIngestionRunAlerted | api/internal/database/queries.go:426-431 | Exactly the row of that id gets the delivery time |
| Ledger.PreviousCompletedIsLatest | api/internal/database/queries.go:395-423 | The lookup returns the latest earlier completed row of the country, never a running one |
| Ledger.StatementsTouchTheirRow | api/internal/database/queries.go:256-294 | Creating, completing and marking change one row each, in their own columns, and none when refused or without a row |
| IngestRuns.RunOneRequest | api/internal/ingestor/eonet.go:346-359 | One request: cancellation, fetch, decode, process |
| IngestRuns.RunIngest | api/internal/ingestor/eonet.go:329-362 | Both requests one after the other up to the first error |
| IngestRuns.IngestWithBudget | api/internal/ingestor/eonet.go:207-309 | Row created, both requests run, outcome recorded, error returned: ledger, result and report as specified |
| IngestRuns.NoErrorMeansComplete | api/internal/ingestor/eonet.go:329-362 | A run without error saw, for every request, a readable 200 body that decoded and was processed to its last event: an empty body never passes |
| IngestRuns.OutcomeExactly | api/internal/ingestor/eonet.go:154-193 | Failure, degraded and success partition the outcomes, and the message names exactly the causes there are |
| IngestRuns.HonestOutcome | api/internal/ingestor/eonet.go:207-309 | No error exactly when the row exists, its completion was acknowledged and it holds success or degraded; then row, record and outcome agree |
| IngestRuns.LedgerTellsTheOutcome | api/internal/ingestor/eonet.go:207-309 | No error exactly when this run left a healthy row and its completion was acknowledged |
| IngestRuns.LostAcknowledgement | api/internal/ingestor/eonet.go:249-293 | A failure is reported over a healthy row exactly when everything succeeded and only the completion was applied without acknowledgement; row and record then disagree |
| IngestRuns.NoSilentFailure | api/internal/ingestor/eonet.go:207-309 | No error exactly when work, row creation, event writes and completion all succeeded; earlier rows stay as they were |
| IngestRuns.RowTellsTheRun | api/internal/ingestor/eonet.go:207-309 | The row a run leaves: its status from its errors, its own counts of fetched and stored, running if not completed; the returned record has the same counts |
| IngestRuns.CauseExactly | api/internal/ingestor/eonet.go:346-359 | A request fails for the context, the fetch, the body or an abandoned response, in this order, and touches nothing before events are processed |
| IngestRuns.CausesExactly | api/internal/ingestor/eonet.go:207-309 | Which causes the error, the record and the completed row name: the run's own failure, a missing or uncompleted row, lost writes and unanswered polygons, and no others |
| DegradedAlerts.NotifyIfDegraded | api/internal/ingestor/scheduler.go:191-252 | The decision and its branch move the ledger and deliver as specified |
| DegradedAlerts.RunAccount | api/internal/ingestor/scheduler.go:136-252 | One run: it delivers exactly as its script says, deliveries plus the alerted state before equal the loss plus the alerted state after, and the loss is at most the faults |
| DegradedAlerts.FaultsHaveCauses | api/internal/ingestor/scheduler.go:136-252 | A run meets no fault unless it completes a degraded row, and none then if completion, alerting, lookup and mark go well and it does not die |
| DegradedAlerts.StreakAccount | api/internal/ingestor/scheduler.go:174-252 | The exact account of a streak: deliveries are its losses, plus one if it ends alerted, minus one if it began alerted |
| DegradedAlerts.StreakDeliversOnceExactly | api/internal/ingestor/scheduler.go:174-252 | A streak that begins unalerted delivers once exactly when it loses nothing and some run gets its alert out, or it loses once and ends unalerted |
| DegradedAlerts.DeliveriesBoundedByFaults | api/internal/ingestor/scheduler.go:174-252 | In every history, deliveries within a degraded streak are at most 1 + faults, failed sends and orphaned rows not counting |
| DegradedAlerts.FaultFreeStreakDeliversOnce | api/internal/ingestor/scheduler.go:174-252 | A fault-free streak with a working send delivers exactly once |
| DegradedAlerts.AlertTimesAreDeliveries | api/internal/ingestor/scheduler.go:224-251 | Every alert_sent_at is the time of a delivery for a degraded run of the same streak |
| DegradedAlerts.DisabledRunDeliversTwice | api/internal/ingestor/scheduler.go:195-207 | Counterexample: disabling alerting for one run in mid-streak makes the streak deliver twice |
| SchedulerLease.SchedulerLocks.TryAcquireSchedulerLock | api/internal/database/queries.go:514-536 | The lock is written exactly when free, expired or already held by this holder |
| SchedulerLease.SchedulerLocks.ReleaseSchedulerLock | api/internal/database/queries.go:538-548 | Only this holder's row is deleted |
| SchedulerLease.MutualExclusion | api/internal/database/queries.go:514-548 | Over every interleaving with crashes, lost statements and clock skew: if the replicas' holder strings are distinct and each run ends strictly before the locked_until it wrote, no two replicas are inside together |
| SchedulerLease.PhaseMoves | api/internal/ingestor/scheduler.go:85-109 | A replica gets in exactly by an acknowledged attempt on a row that is absent, expired or its own, for five minutes by its clock; it leaves, releases and is idle again, or crashes |
| SchedulerLease.RowMoves | api/internal/database/queries.go:514-548 | The row is written, or deleted, even when the replica is not told, and under no other circumstances |
| SchedulerLease.NextSteps | api/internal/ingestor/scheduler.go:85-109 | Which step a replica may take next follows from where it is |
| SchedulerLease.OwnerThroughout | api/internal/ingestor/scheduler.go:85-109 | With distinct holder strings and timely runs, whoever is inside owns the row with the deadline it wrote |
| SchedulerLease.IntrusionExactly | api/internal/database/queries.go:514-536 | While one replica is inside, another gets in exactly when the first has overrun or both have one holder string |
| SchedulerLease.ReleaseTakesRowExactly | api/internal/database/queries.go:538-548 | A release deletes the row of a replica that is inside exactly when both have one holder string |
| SchedulerLease.SameHolderExactly | api/internal/ingestor/scheduler.go:111-117 | Two replicas have one holder string exactly when their pids are equal, and their hosts are equal or each is unreadable, empty or called "unknown-host" |
| SchedulerLease.SharedHolderBreaksExclusion | api/internal/database/queries.go:514-536 | Counterexample: two replicas with one holder string are inside together while both are timely |
| SchedulerLease.ExcludesExactly | api/internal/database/queries.go:514-548 | The lock excludes in every timely execution of a fleet exactly when its holder strings are distinct |
| SchedulerLease.OverrunBreaksExclusion | api/internal/ingestor/scheduler.go:71-83 | Counterexample: a run ending exactly at its deadline is already too late |
| SchedulerLease.LateReleaseIsHarmless | api/internal/database/queries.go:514-548 | In every sequence of steps a row stays as written until its deadline whatever replicas with other holder strings do, late releases of expired holders included |
| SchedulerLease.CrashBlocksAtMostTtl | api/internal/ingestor/scheduler.go:71-83 | A crashed holder blocks the others for at most five minutes (plus clock skew) |
| Scheduler.RunScheduledIngest | api/internal/ingestor/scheduler.go:136-152 | One country, alive or dying at any point: ingest, then the degraded alert or the failure email, as one step of machine and alert history |
| Scheduler.FailuresAreMailed | api/internal/ingestor/scheduler.go:136-152 | The failure email goes out exactly when alerting works, the process lives to send it, and work, an event write or the ledger row failed |
| Scheduler.CountryLeavesItsRow | api/internal/ingestor/scheduler.go:136-152 | The row one country's run leaves, wherever the process dies: none, one still running, or one completed with what its work counted; tables and budget are those of its work |
| Scheduler.CountryAlerts | api/internal/ingestor/scheduler.go:136-252 | The degraded alert of a country's run goes out exactly when its row is completed degraded and acknowledged, alerting works, the process lives to send it, and no earlier alert of the streak is seen |
| Scheduler.RunExactly | api/internal/ingestor/scheduler.go:121-132 | A country is run exactly when no death and no end of the context comes before it |
| Scheduler.DiedExactly | api/internal/ingestor/scheduler.go:121-132 | The process died exactly when it died in a country that was run |
| Scheduler.RunAllCountries | api/internal/ingestor/scheduler.go:121-132 | One budget for all countries, up to cancellation or death: issued plus left make 60 and none is issued at or after the deadline |
| Scheduler.RunAllCountriesWithLock | api/internal/ingestor/scheduler.go:85-109 | Without the lock nothing is touched; with it the run happens and this holder's row is released, unless the process died; without a lock table the run just happens |
| Scheduler.TicksAreHistories | api/internal/ingestor/scheduler.go:121-152 | The ledger of any sequence of scheduled runs, crashes included, is that of an alert history, so the streak theorems hold of it |
| Scheduler.ScheduledAlertTimesAreDeliveries | api/internal/ingestor/scheduler.go:121-252 | After any sequence of scheduled runs, crashes included, every recorded alert time is that of a delivery in its streak |
| RunSafety.OnlyServedPolygonsAreStored | api/internal/ingestor/scheduler.go:121-152 | After any sequence of scheduled runs, from fetch to table, every stored polygon is one GDACS served |
| LeasedRuns.LedgerIsSerial | api/internal/ingestor/scheduler.go:85-252 | Replicas that write the ledger statement by statement under the lease, timely and with distinct holder strings, crashes and lost statements included, leave the ledger and deliveries of one alert history at every instant |
| LeasedRuns.AdvancedFits | api/internal/ingestor/scheduler.go:136-252 | The statements of one run, one at a time and stopped anywhere, add up to the run the alert history records |
| LeasedRuns.LeaseRunsOn | api/internal/ingestor/scheduler.go:85-109 | Under the runs, the lease is an execution of the lease model, so its theorems hold of the replicas |
| LeasedRuns.RunEnds | api/internal/ingestor/scheduler.go:136-252 | Each stage of a run is passed at most once, so it ends after four statements at most |
| RunSafety.UnresolvedRunKeepsGeometry | api/internal/ingestor/eonet.go:329-362 | If in a whole run all arrivals of an id are unresolved, its row keeps its geometry and no row appears |
| StalenessWatchdog.AlertDedupe.TryRecordStalenessAlert | api/internal/database/queries.go:481-492 | A claim is inserted, and reported as new exactly when it was absent |
| StalenessWatchdog.AlertDedupe.ReleaseStalenessAlertClaim | api/internal/database/queries.go:502-512 | Exactly this reference's claim is deleted |
| StalenessWatchdog.Watchdog.OnTick | api/internal/alert/watchdog.go:49-132 | A tick without a reference time does nothing; with one it is the claim, send and release of OnReference, or without a claim table the send the replica's own memory allows |
| StalenessWatchdog.Watchdog.OnReference | api/internal/alert/watchdog.go:60-101 | One tick is the replica's claim, send and release steps of the protocol, with two clock readings, and says whether it sent |
| StalenessWatchdog.AtMostOneSend | api/internal/alert/watchdog.go:49-103 | Over all replicas, interleavings, crashes and failed statements: at most one successful send per reference time |
| StalenessWatchdog.ClaimedExactly | api/internal/alert/watchdog.go:66-80 | A replica comes to hold a claim exactly by a tick over data older than the threshold that it has not alerted, with the claim free and the insert acknowledged |
| StalenessWatchdog.SendsAreStale | api/internal/alert/watchdog.go:49-103 | Over every behaviour, each send was claimed by a tick of its replica over stale data: fresh data is never alerted |
| StalenessWatchdog.FreshTickForgets | api/internal/alert/watchdog.go:60-65 | A tick over fresh data claims and sends nothing, and forgets the last alert if the data is still fresh by the second clock reading |
| StalenessWatchdog.AfterTheClaim | api/internal/alert/watchdog.go:83-101 | A send that went out is counted and remembered, one that failed leads to a release, a release gives the claim up, and a crash forgets |
| StalenessWatchdog.TickExactly | api/internal/alert/watchdog.go:60-101 | An undisturbed tick from the first clock reading to the release: when it sends, whether the claim stands, and what the replica remembers |
| StalenessWatchdog.SentAloneExactly | api/internal/alert/watchdog.go:60-101 | Without a claim table a tick sends exactly over stale data this replica has not alerted, if the email goes out, and remembers just that |
| StalenessWatchdog.ReferenceExactly | api/internal/alert/watchdog.go:107-147 | The reference is the last success's completion, else its start, else, if there was none, the first run's start; a lookup that fails where needed gives none |
| StalenessWatchdog.ReleaseDeletesOwnClaim | api/internal/database/queries.go:502-512 | A release deletes at most one claim, the releasing replica's own and never sent |
| StalenessWatchdog.FailedSendIsRetried | api/internal/alert/watchdog.go:49-103 | After a failed send and a successful release the reference is claimable and the same replica claims it on its next tick |
| StalenessWatchdog.OrphanedClaimBlocks | api/internal/database/queries.go:494-512 | An orphaned claim stays, and nothing more is ever sent for its reference |
| TokenBuckets.TokenBucket.constructor | api/internal/handlers/middleware.go:170-179 | A full bucket |
| TokenBuckets.TokenBucket.Allow | api/internal/handlers/middleware.go:181-199 | Refill, cap and draw as specified, with the decision |
| TokenBuckets.TokensInRange | api/internal/handlers/middleware.go:181-199 | 0 <= tokens <= rpm after every call sequence on a monotone clock |
| TokenBuckets.WindowPotential | api/internal/handlers/middleware.go:181-199 | Tokens left plus calls allowed never exceed capacity plus what the window refills |
| TokenBuckets.WindowBound | api/internal/handlers/middleware.go:181-199 | At most rpm + T * rpm / 60 calls are allowed in any window of length T |
| TokenBuckets.SpacedNeverRefused | api/internal/handlers/middleware.go:181-199 | A client spacing requests at least 60 / rpm seconds apart is never refused |
| TokenBuckets.IdleMinuteIsFresh | api/internal/handlers/middleware.go:181-199 | After a minute without calls a bucket answers like a fresh one |
| TokenBuckets.ForgettableExactly | api/internal/handlers/middleware.go:181-199 | A bucket and a fresh one in its place answer every later sequence of calls alike exactly when the bucket was full again |
| RateLimiter.IpRateLimiter.EvictExpired | api/internal/handlers/middleware.go:250-256 | Exactly the buckets idle for longer than the TTL go |
| RateLimiter.IpRateLimiter.EvictOldest | api/internal/handlers/middleware.go:258-270 | The oldest bucket of some iteration order goes, unless the search ends on the empty key |
| RateLimiter.IpRateLimiter.Admit | api/internal/handlers/middleware.go:233-248 | Find or make the client's bucket, evicting first |
| RateLimiter.IpRateLimiter.Request | api/internal/handlers/middleware.go:181-248 | One request as one step of the limiter specification |
| RateLimiter.FullMapHasIdleBucket | api/internal/handlers/middleware.go:233-270 | With at most maxBuckets clients a minute, a full map holds a bucket idle for a minute |
| RateLimiter.EvictedIsIdle | api/internal/handlers/middleware.go:258-270 | So the evicted bucket was already full again |
| RateLimiter.BoundedRefinesUnbounded | api/internal/handlers/middleware.go:203-270 | TTL and oldest-first evictions never change a decision in any history with a TTL of a minute or more, non-empty keys and at most maxBuckets clients a minute |
| RateLimiter.ClientWindowBound | api/internal/handlers/middleware.go:203-270 | The window bound per client survives evictions |
| RateLimiter.NothingEvictedExactly | api/internal/handlers/middleware.go:258-270 | Some iteration order evicts nothing from a non-empty map exactly when the empty key is in it and strictly the least recently seen |
| RateLimiter.CapBreaksExactly | api/internal/handlers/middleware.go:233-270 | A request takes the map over its bound exactly when a new client meets a full map that can evict nothing |
| RateLimiter.CapHolds | api/internal/handlers/middleware.go:233-270 | With non-empty client keys the map never exceeds maxBuckets, in every history, whatever the TTL and the number of clients |
| RateLimiter.EmptyKeyBreaksCap | api/internal/handlers/middleware.go:258-270 | Counterexample: an empty client key breaks the cap |
| RateLimiter.EvictionForgives | api/internal/handlers/middleware.go:233-270 | Counterexample: with one bucket and one request a minute, the history a, b, a at one instant is allowed where the limiter without bounds refuses the third request |
| RateLimiter.ShortTtlForgives | api/internal/handlers/middleware.go:250-256 | Counterexample: with a TTL under a minute and one request a minute, one client's second request after the TTL is allowed where the limiter without bounds refuses it |
| RateLimiter.TooManyClientsForgiven | api/internal/handlers/middleware.go:233-270 | One bucket, any rate: a second client is always allowed and replaces the first |
| ResponseCaches.ResponseCache.RemoveLocked | api/internal/handlers/middleware.go:572-577 | The key's entry and list element go, and nothing else |
| ResponseCaches.ResponseCache.Check | api/internal/handlers/middleware.go:510-520 | A lookup is the specification's lookup: expired entries go, live ones move to the front |
| ResponseCaches.ResponseCache.Put | api/internal/handlers/middleware.go:544-561 | A store is the specification's store: replace, push to the front, evict |
| ResponseCaches.ResponseCache.EvictOverflow | api/internal/handlers/middleware.go:579-596 | The loop ends, keeping exactly the most recently used maxEntries; map and list stay in bijection |
| LruSpec.AlwaysOrdered | api/internal/handlers/middleware.go:495-596 | In every interleaving of lookups and stores the list is ordered by last use and within maxEntries |
| LruSpec.HitIsLatestStore | api/internal/handlers/middleware.go:510-532 | A hit returns status and body of the latest store of that key, made no more than the TTL earlier |
| LruSpec.RecentStoreHits | api/internal/handlers/middleware.go:510-596 | In every interleaving a lookup hits, with the last store's response, if that store has not expired and fewer than maxEntries other keys were used since the key was |
| LruSpec.EvictsLeastRecentlyUsed | api/internal/handlers/middleware.go:579-596 | A store evicts at most one entry, never its own, only from a full cache, and the least recently used |
| CacheMiddleware.Serve | api/internal/handlers/middleware.go:495-563 | One request moves the cache and is answered as specified: bypass, hit, or the handler's answer and its store under the normalized key |
| CacheMiddleware.OnlySuccessIsRepeated | api/internal/handlers/middleware.go:543-561 | In every interleaving of the middleware's lookups and stores, what a hit repeats has a status from 200 to 299 |
| CacheMiddleware.NextReachesHandlerExactly | api/internal/handlers/middleware.go:510-561 | After a request that reached the handler, the next one for its key reaches it again exactly if the status was outside 200 to 299 or the TTL is over; otherwise it repeats the answer |
| CacheMiddleware.PastTheCache | api/internal/handlers/middleware.go:495-506 | Other methods are handled, overlong queries get 414, and neither touches the cache |
| CacheMiddleware.HitAnswersSameRequest | api/internal/handlers/middleware.go:495-570 | In every interleaving a hit returns what the handler answered, within the TTL, to a request for the same path and parsed query, or to one of a pair in which a path spells out the other request |
| CacheMiddleware.PlainPathIsNotConfused | api/internal/handlers/middleware.go:495-570 | Paths without a question mark are in no such pair |
| CacheKeys.NormalizedCacheKey | api/internal/handlers/middleware.go:565-570 | The key of path and raw query |
| CacheKeys.Encode | api/internal/handlers/middleware.go:569 | Names in increasing order, each with its values in order, escaped |
| CacheKeys.ParseEncoded | api/internal/handlers/middleware.go:569 | Encoding loses nothing: parsing the encoded query gives the query back |
| CacheKeys.UnescapeEscape | api/internal/handlers/middleware.go:569 | Escaping is undone by unescaping, for every byte string |
| CacheKeys.EscapedExactly | api/internal/handlers/middleware.go:569 | Unreserved characters of section 2.3 of RFC 3986 stand for themselves, a space becomes a plus, every other byte a percent and two capital hexadecimal digits |
| CacheKeys.UnescapedExactly | api/internal/handlers/middleware.go:569 | A percent and two hexadecimal digits of either case are read as their byte |
| CacheKeys.PlusIsSpace | api/internal/handlers/middleware.go:569 | A plus is read as a space |
| CacheKeys.SameKeyExactly | api/internal/handlers/middleware.go:565-570 | For all requests: they share a key exactly when path and parsed query agree, or one has no query and a path that spells out the other's path and encoded query |
| CacheKeys.QuestionMarkInPathShares | api/internal/handlers/middleware.go:565-570 | Counterexample: a question mark inside a decoded path makes it share the key of a path with a query |
| Listing.AppendAllowedEventFilter | api/internal/database/queries.go:30-34 | One condition more, bound to the argument appended with it |
| Listing.BuildEventFilterClause | api/internal/database/queries.go:36-69 | Placeholder k binds argument k, and the clause selects exactly the rows the filters admit |
| Listing.EachFilterNarrows | api/internal/database/queries.go:36-69 | Without filters every row is admitted, and each one that is set narrows the listing by its own column alone |
| Listing.ListEvents | api/internal/database/queries.go:73-170 | The total of one table and the slice of another's ordered listing, or an error of either query: LIMIT and OFFSET are bound to their own arguments |
| Listing.BeforeIsStrictTotalOrder | api/internal/database/queries.go:100-138 | event_date DESC NULLS LAST, id DESC is a strict total order on rows |
| Listing.ListedIsOrdered | api/internal/database/queries.go:129-138 | The listing is ordered and holds exactly the admitted rows |
| Listing.NewestFirst | api/internal/database/queries.go:100-138 | Newest first, rows without a date last, the larger id first among equal dates |
| Listing.PageExactly | api/internal/database/queries.go:73-170 | The page is the listing from the offset on, as many rows as the limit, which is 50 unless 1 to 200 was asked for |
| Paging.ReupsertKeepsPlaces | api/internal/database/db.go:151-164 | Re-upserts that change only ingested_at leave every row at its place in the listing |
| Paging.SameListingSamePlaces | api/internal/database/queries.go:129-138 | Whatever else is written: if the admitted rows keep their dates, they keep their places |
| Paging.ExactlyOncePaging | api/internal/database/queries.go:88-138 | A page walk interleaved with writes that keep the admitted rows' places visits every admitted row exactly once |
| Paging.WritesBetweenPages | api/internal/database/queries.go:118-128 | Whatever is written between two pages of a walk: a row listed before and after is shown once exactly when its old and new index are on the same side of the pages read before |
| Paging.WalkVisitsExactly | api/internal/database/queries.go:118-138 | Whatever is written between any pages: a row is shown as often as there are pages whose slice of the listing of their moment holds it |
| Paging.InsertBetweenPages | api/internal/database/queries.go:118-128 | A row inserted between two pages makes another be shown twice exactly when it sorts ahead of a boundary within the listing, and is itself shown exactly when it sorts behind the boundary |
| Paging.RemovalBetweenPages | api/internal/database/queries.go:118-128 | A row removed between two pages makes another be missed exactly when it stood before the boundary and rows remain behind it |
| Paging.MoveBetweenPages | api/internal/database/queries.go:118-128 | One row moves from index p to q between two pages: every row is shown once exactly when p and q are on the same side of the page boundary |
| Paging.RevisionBetweenPages | api/internal/database/queries.go:118-128 | The same for a revised event_date over a whole walk: exactly once exactly when old and new index are on the same side of the pages read before |
| Paging.RevisedDateRepeats | api/internal/database/queries.go:118-128 | Counterexample: a revised event_date shows a row twice |
| Paging.NewEventRepeats | api/internal/database/queries.go:118-128 | Counterexample: a new event that sorts first shows an unchanged row twice |
| Dashboard.GoToPage | web/src/components/EventsDashboard.tsx:248-256 | Reading the new URL back gives the page asked for, bounded; page 1 stays out of it, and no other parameter moves |
| Dashboard.JumpRoundTrip | web/src/components/EventsDashboard.tsx:194-199 | Any page number written to the URL and parsed again is bounded to 1..1,000,000, and a number beyond the safe integers reads as 1 |
| Dashboard.PageIsRead | web/src/components/EventsDashboard.tsx:181-199 | The URL's page is read strictly: digits only, from 1 to the largest safe integer, cut at 1,000,000, and anything else is page 1; page p begins at row 50 (p - 1) |
| Dashboard.LandingExactly | web/src/components/EventsDashboard.tsx:194-199 | A page asked for by number is the page shown, from 1 to 1,000,000 |
| Dashboard.ClickedPage | web/src/components/EventsDashboard.tsx:501-517 | The n-th click on Next lands on page n + 1, up to the last reachable page |
| Dashboard.RangesTile | web/src/components/EventsDashboard.tsx:364-378 | The ranges announced along the way tile 1..total, and Next is offered exactly before the last |
| Dashboard.NextEndsExactly | web/src/components/EventsDashboard.tsx:181-199 | Next stops being offered exactly when the total fits in 1,000,000 pages of 50 |
| Dashboard.FollowingNextShowsEachRowOnce | web/src/components/EventsDashboard.tsx:364-378 | Following Next, each pager computed from its own response's total and row count, with writes in between that keep the matching rows' places: every matching row once, and Next on every screen but the last |
| StringOrder.SortedKeys | api/internal/digest/digest.go:118-125 | Every key once, in increasing order, whatever order the map yields them in |
| StringOrder.IncreasingUnique | api/internal/digest/digest.go:118-125 | There is only one such sequence |
| Digest.FillBucket | api/internal/digest/digest.go:91-104 | Every bin holds exactly the events filed under it, in their order, and no bin is empty |
| Digest.StateGroups | api/internal/digest/digest.go:108-113 | The states of one country in increasing order with their events |
| Digest.GroupByCountryState | api/internal/digest/digest.go:90-116 | The groups read back are the stable sort of the events by country and state; names strictly increase and no group is empty |
| Digest.GroupsHoldTheirOwn | api/internal/digest/digest.go:90-116 | The group of a country and state holds exactly the rows of that country and state, in order, rows without a name under "Unknown" |
| Digest.EveryRowHasItsGroup | api/internal/digest/digest.go:90-116 | Every row has its group |
| Digest.StableSortIsStable | api/internal/digest/digest.go:90-116 | The specification is ordered and keeps the order of events filed alike |
| Digest.StableSortUnique | api/internal/digest/digest.go:90-116 | An ordered sequence is determined by what is filed where |
| Digest.DayExactly | api/internal/digest/digest.go:134-137 | The filters admit exactly the floods dated on the current UTC day |
| Digest.BuildTodayDigest | api/internal/digest/digest.go:62-84 | The stable sort of the rows read; Total is the sum of the group sizes, the day's floods up to 200; no digest exactly when a query failed |

## Left out

- HTTP, JSON and URL parsing: replies arrive decoded or as failures. Whether `parseGDACSReference`
  accepts a URL is one parameter (`usableReference`).
- Floating point: coordinates, tolerances, tokens and times are reals; rounding is not modelled. The
  tolerance 2e-4 is exact.
- Postgres and PostGIS: tables are maps or sequences and a statement is one step. The enrichment
  trigger that sets country and state names is not part of this model; `EventStore.Row` holds only
  what the two statements write, and the constant source column is dropped.
- Listing.ListEvents: columns that are only displayed are dropped, and a scan error is a failed query.
- Scheduler.RunScheduledIngest: a missing alert client behaves as disabled alerting, and the text of an
  email is left out. A death in the middle of a response is a cancellation of its next event.
- IngestRuns.IngestWithBudget: error texts are causes, joined in a sequence; the budget created for a
  missing one belongs to callers outside the scheduler.
- Ingest.ProcessPolygonEvent: the "unusable polygon geometry" branch (`eonet.go:553-558`) has no
  counterpart: `NormalizedPolygonIsUsable` proves it unreachable. The body of the loop is split into
  one method per branch.
- ResponseCaches.ResponseCache.EvictOverflow: the branches for an empty list, a foreign value or a
  missing key (`middleware.go:582-594`) cannot be reached while map and list are in bijection, and
  have no counterpart.
- CacheMiddleware.Serve: response headers are not modelled, so a hit is claimed to repeat status and
  body only. Its contract is for a request with no other in between; interleavings are the histories
  of `LruSpec`.
- RateLimiter.IpRateLimiter.Request: finding the bucket and drawing from it is one step on a monotone
  clock; proxies, client address parsing and the status-429 answer are left out.
- StalenessWatchdog.Watchdog.OnTick: a send that fails after the email left is a failed send here.
- LeasedRuns.LedgerIsSerial: the replicas' writes to the events table are not interleaved with their
  ledger statements.
- Digest.BuildTodayDigest: times are whole microseconds; a day with more than 200 floods is cut off
  by the query's limit, as in the code.
- Dashboard.GoToPage: the filter handlers, which drop the page parameter, and the frozen pager during
  a page change are left out.
- Environment parsing, server start-up, tickers and goroutines, CORS and security headers, logging,
  email rendering, `api/cmd/ingest`, GetNearbyEvents, health folding, the map, and the scripts: wiring
  or single-branch code.
