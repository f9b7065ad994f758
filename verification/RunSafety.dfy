/**
 * Fail-closed storage end to end: over every sequence of scheduled runs, from the fetch to the
 * events table (eonet.go, scheduler.go and db.go together).
 */
module RunSafety {
  import opened Wrappers
  import opened Geometry
  import opened Gdacs
  import opened Normalizer
  import opened Ingest
  import opened IngestSafety
  import opened IngestRuns
  import opened Scheduler

  // ---------------------------------------------------------------- only what GDACS served

  ghost predicate RequestServesOnly(s: RequestScript, ok: RawJson -> bool) {
    forall i: nat :: ServesOnly(s.weather(i).session, ok)
  }

  ghost predicate CountryServesOnly(s: CountryScript, ok: RawJson -> bool) {
    forall i :: 0 <= i < |s.requests| ==> RequestServesOnly(s.requests[i], ok)
  }

  ghost predicate TickServesOnly(t: Scheduler.Tick, ok: RawJson -> bool) {
    forall i: nat :: CountryServesOnly(t.scripts(i), ok)
  }

  /** Fetched events are counted before the loop over them. */
  function WithFetched(w: World, n: nat): World { w.(counters := w.counters.(fetched := w.counters.fetched + n)) }

  /** The events of a response that is processed at all. */
  function BodyOf(s: RequestScript): Option<seq<RawEvent>> {
    if s.cancelled then None else IngestRuns.Decoded(FetchResult(s))
  }

  lemma RequestWorld(w: World, bbox: Box, s: RequestScript)
    requires UsableCache(w.budget.cache)
    ensures RunRequest(w, bbox, s).0 ==
              match BodyOf(s)
              case None => w
              case Some(raws) => ProcessEvents(WithFetched(w, |raws|), bbox, raws, s.weather).world
  {
  }

  lemma RequestIsSafe(w: World, bbox: Box, s: RequestScript, ok: RawJson -> bool)
    requires Safe(w, ok) && RequestServesOnly(s, ok)
    ensures Safe(RunRequest(w, bbox, s).0, ok)
  {
    RequestWorld(w, bbox, s);
    var body := BodyOf(s);
    if body.Some? {
      assert Safe(WithFetched(w, |body.value|), ok);
      ResponseIsSafe(WithFetched(w, |body.value|), bbox, body.value, s.weather, ok);
    }
  }

  lemma {:induction false} RequestsAreSafe(w: World, bbox: Box, scripts: seq<RequestScript>, ok: RawJson -> bool)
    requires Safe(w, ok) && forall i :: 0 <= i < |scripts| ==> RequestServesOnly(scripts[i], ok)
    ensures Safe(RunRequests(w, bbox, scripts).0, ok)
  {
    if scripts != [] {
      var n := |scripts| - 1;
      RequestsAreSafe(w, bbox, scripts[..n], ok);
      RequestIsSafe(RunRequests(w, bbox, scripts[..n]).0, bbox, scripts[n], ok);
    }
  }

  ghost predicate MachineSafe(m: Machine, ok: RawJson -> bool) { Safe(World(m.rows, NO_COUNTS, m.budget), ok) }

  lemma {:induction false} CountriesAreSafe(
      m: Machine, countries: seq<Country>, scripts: nat -> CountryScript, k: nat, ok: RawJson -> bool)
    requires MachineSafe(m, ok) && k <= |countries| && forall i: nat :: CountryServesOnly(scripts(i), ok)
    ensures MachineSafe(RunCountries(m, countries, scripts, k), ok)
  {
    if k > 0 {
      CountriesAreSafe(m, countries, scripts, k - 1, ok);
      var before := RunCountries(m, countries, scripts, k - 1);
      CountryIsSafe(before, countries[k - 1], scripts(k - 1), ok);
      assert RunCountries(m, countries, scripts, k) == RunCountry(before, countries[k - 1], scripts(k - 1));
    }
  }

  lemma CountryIsSafe(m: Machine, country: Country, s: CountryScript, ok: RawJson -> bool)
    requires MachineSafe(m, ok) && CountryServesOnly(s, ok)
    ensures MachineSafe(RunCountry(m, country, s), ok)
  {
    RequestsAreSafe(World(m.rows, NO_COUNTS, m.budget), country.bbox, s.requests, ok);
  }

  /**
   * Whatever EONET sends and however requests, writes and sends fail: after every sequence of
   * scheduled runs, every polygon in the table is one GDACS served, and every row's geometry, type
   * and marker agree.
   */
  lemma {:induction false} OnlyServedPolygonsAreStored(ticks: seq<Scheduler.Tick>, ok: RawJson -> bool)
    requires forall i :: 0 <= i < |ticks| ==> TickServesOnly(ticks[i], ok)
    ensures PolygonsFrom(RunTicks(ticks).0, ok) && TableConsistent(RunTicks(ticks).0)
  {
    if ticks != [] {
      var init, t := ticks[..|ticks| - 1], ticks[|ticks| - 1];
      OnlyServedPolygonsAreStored(init, ok);
      var m := Machine(RunTicks(init).0, RunTicks(init).1, FreshBudget(t.now));
      assert MachineSafe(m, ok);
      assert TickServesOnly(t, ok);
      CountriesAreSafe(m, DEFAULT_COUNTRIES, t.scripts, CountriesRun(t.scripts, |DEFAULT_COUNTRIES|), ok);
    }
  }

  // ---------------------------------------------------------------- unresolved arrivals, over a run

  /** An event that arrived, and what became of it. */
  datatype Arrival = Arrival(id: string, decision: Decision)

  /** The arrivals of one response, as far as it was processed. */
  function Arrivals(w: World, bbox: Box, s: RequestScript): seq<Arrival>
    requires UsableCache(w.budget.cache)
  {
    match BodyOf(s)
    case None => []
    case Some(raws) =>
      var ds := ProcessEvents(WithFetched(w, |raws|), bbox, raws, s.weather).decisions;
      DecisionsFit(WithFetched(w, |raws|), bbox, raws, s.weather);
      seq(|ds|, i requires 0 <= i < |ds| => Arrival(raws[i].id, ds[i]))
  }

  /** The arrivals of a run: both responses, up to the first error. */
  function RunArrivals(w: World, bbox: Box, scripts: seq<RequestScript>): seq<Arrival>
    requires UsableCache(w.budget.cache)
  {
    if scripts == [] then []
    else
      var init := scripts[..|scripts| - 1];
      RunArrivals(w, bbox, init)
      + if RunRequests(w, bbox, init).1.Some? then []
        else Arrivals(RunRequests(w, bbox, init).0, bbox, scripts[|scripts| - 1])
  }

  /** No arrival under this id got as far as the upsert. */
  predicate NoneStored(arrivals: seq<Arrival>, id: string) {
    forall i :: 0 <= i < |arrivals| && arrivals[i].id == id ==> !(arrivals[i].decision in {Stored, NotStored})
  }

  lemma RequestKeepsRow(w: World, bbox: Box, s: RequestScript, id: string)
    requires UsableCache(w.budget.cache) && NoneStored(Arrivals(w, bbox, s), id)
    ensures RowKept(w.rows, RunRequest(w, bbox, s).0.rows, id)
  {
    RequestWorld(w, bbox, s);
    if BodyOf(s).Some? {
      var raws := BodyOf(s).value;
      var counted := WithFetched(w, |raws|);
      DecisionsFit(counted, bbox, raws, s.weather);
      var ds := ProcessEvents(counted, bbox, raws, s.weather).decisions;
      forall i | 0 <= i < |ds| && raws[i].id == id ensures !(ds[i] in {Stored, NotStored}) {
        assert Arrivals(w, bbox, s)[i] == Arrival(raws[i].id, ds[i]);
      }
      UnresolvedKeepsGeometry(counted, bbox, raws, s.weather, id);
    }
  }

  lemma NoneStoredSplit(a: seq<Arrival>, b: seq<Arrival>, id: string)
    requires NoneStored(a + b, id)
    ensures NoneStored(a, id) && NoneStored(b, id)
  {
    assert forall i :: 0 <= i < |a| ==> (a + b)[i] == a[i];
    assert forall i :: 0 <= i < |b| ==> (a + b)[|a| + i] == b[i];
  }

  /**
   * If in a whole run every arrival for an id is unresolved, or dropped before the upsert, its row
   * keeps geometry, type, coordinates, date and payload, and no row appears for an unknown id.
   */
  lemma {:induction false} UnresolvedRunKeepsGeometry(w: World, bbox: Box, scripts: seq<RequestScript>, id: string)
    requires UsableCache(w.budget.cache) && NoneStored(RunArrivals(w, bbox, scripts), id)
    ensures RowKept(w.rows, RunRequests(w, bbox, scripts).0.rows, id)
  {
    if scripts != [] {
      var n := |scripts| - 1;
      var init := scripts[..n];
      var before := RunRequests(w, bbox, init);
      NoneStoredSplit(RunArrivals(w, bbox, init),
                      if before.1.Some? then [] else Arrivals(before.0, bbox, scripts[n]), id);
      UnresolvedRunKeepsGeometry(w, bbox, init, id);
      if before.1.None? {
        RequestKeepsRow(before.0, bbox, scripts[n], id);
      }
    }
  }
}
