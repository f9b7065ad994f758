/**
 * The scheduled run over all countries (runScheduledIngest, runAllCountries and
 * runAllCountriesWithLock in api/internal/ingestor/scheduler.go): one budget, one country after the
 * other, each with its ledger row and its degraded alert.
 */
module Scheduler {
  import opened Wrappers
  import opened Geometry
  import opened RunBudgets
  import opened EventStore
  import opened Ingest
  import opened Ledger
  import opened IngestRuns
  import opened DegradedAlerts
  import opened SchedulerLease

  datatype Country = Country(code: string, bbox: Box)

  const DEFAULT_COUNTRIES: seq<Country> := [
    Country("NG", Box(2.0, 4.0, 15.0, 14.0)),
    Country("GH", Box(-3.5, 4.5, 1.2, 11.2))]

  /**
   * What the outside world does around one country's run, and where the process dies, if it does. If it
   * dies before completing the row, the requests are those up to its death, and a death between two
   * events of a response is a cancellation of the event it does not reach. A crash point that the run
   * does not come by is a death right after it.
   */
  datatype CountryScript = CountryScript(
    cancelledBefore: bool, requests: seq<RequestScript>, create: Ack, complete: Ack,
    enabled: bool, lookupOk: bool, sendOk: bool, sentAt: int, mark: Ack, crash: Crash)

  /** Everything a scheduled run may change. */
  datatype Machine = Machine(rows: Table, runs: Runs, budget: Budget)

  /** The run as the alert model sees it. */
  function AsRun(m: Machine, country: Country, s: CountryScript): RunScript
    requires UsableCache(m.budget.cache)
  {
    var (after, runErr) := RunRequests(World(m.rows, NO_COUNTS, m.budget), country.bbox, s.requests);
    RunScript(country.code, after.counters, runErr, s.create, s.complete,
              s.enabled, s.lookupOk, s.sendOk, s.sentAt, s.mark, s.crash)
  }

  function RunCountry(m: Machine, country: Country, s: CountryScript): (after: Machine)
    requires UsableCache(m.budget.cache)
    ensures UsableCache(after.budget.cache)
  {
    var w := World(m.rows, NO_COUNTS, m.budget);
    var worked := if s.crash == BeforeCreate then w else RunRequests(w, country.bbox, s.requests).0;
    Machine(worked.rows, PlayRun(m.runs, AsRun(m, country, s)).runs, worked.budget)
  }

  /** The failure email goes out. */
  predicate FailureMailed(m: Machine, country: Country, s: CountryScript)
    requires UsableCache(m.budget.cache)
  {
    var run := AsRun(m, country, s);
    && s.enabled && s.sendOk && s.crash in {NoCrash, BeforeMark}
    && RecordRun(m.runs, country.code, run.counters, run.runErr, s.create, s.complete).1.err.Some?
  }

  /**
   * The failure email goes out exactly when alerting works, the process lives to send it, and something of the
   * run failed: the work, an event write, or the ledger row.
   */
  lemma FailuresAreMailed(m: Machine, country: Country, s: CountryScript)
    requires UsableCache(m.budget.cache)
    ensures var run := AsRun(m, country, s);
            FailureMailed(m, country, s)
            <==> && s.enabled && s.sendOk && (s.crash == NoCrash || s.crash == BeforeMark)
                 && (run.runErr.Some? || run.counters.storageErrors > 0 || !s.create.Applied? || !s.complete.Applied?)
  {
    var run := AsRun(m, country, s);
    NoSilentFailure(m.runs, country.code, run.counters, run.runErr, s.create, s.complete);
  }

  /** The work of the run: what its requests leave, and how they end. */
  function WorkOf(m: Machine, country: Country, s: CountryScript): (World, Option<Cause>)
    requires UsableCache(m.budget.cache)
  {
    RunRequests(World(m.rows, NO_COUNTS, m.budget), country.bbox, s.requests)
  }

  /**
   * The row a country's run leaves, wherever it dies: none, one still running, or one completed with what
   * its work counted. Tables and budget are those of its work.
   */
  lemma CountryLeavesItsRow(m: Machine, country: Country, s: CountryScript)
    requires UsableCache(m.budget.cache)
    ensures var (work, runErr) := WorkOf(m, country, s);
            var after := RunCountry(m, country, s);
            if s.crash == BeforeCreate then after == m
            else
              && after.rows == work.rows && after.budget == work.budget
              && |after.runs| == |m.runs| + (if s.create.Refused? then 0 else 1) && m.runs <= after.runs
              && (!s.create.Refused? ==>
                    var row := after.runs[|m.runs|];
                    && row.country == country.code
                    && (if s.create.Applied? && !s.complete.Refused? && s.crash != BeforeComplete
                        then && row.status == StatusOf(runErr, work.counters)
                             && row.fetched == work.counters.fetched && row.stored == work.counters.stored
                        else row.status == Running))
  {
    var run := AsRun(m, country, s);
    RowTellsTheRun(m.runs, country.code, run.counters, run.runErr, s.create, s.complete);
    HonestOutcome(m.runs, country.code, run.counters, run.runErr, s.create, s.complete);
  }

  /**
   * The degraded alert of a country's run goes out exactly when its row is completed degraded and acknowledged,
   * alerting works, the process lives to send it, and no earlier alert of the streak is seen.
   */
  lemma CountryAlerts(m: Machine, country: Country, s: CountryScript)
    requires UsableCache(m.budget.cache)
    ensures var (work, runErr) := WorkOf(m, country, s);
            PlayRun(m.runs, AsRun(m, country, s)).delivered
            == if && StatusOf(runErr, work.counters) == Degraded && s.create.Applied? && s.complete.Applied?
                  && s.enabled && s.sendOk && (s.crash == NoCrash || s.crash == BeforeMark)
                  && !(s.lookupOk && Alerted(m.runs, country.code))
               then Some(s.sentAt) else None
  {
    DeliveredWhen(m.runs, AsRun(m, country, s));
  }

  predicate Dies(s: CountryScript) { s.crash != NoCrash }

  /** How many countries are run before the context ends or the process dies. */
  function CountriesRun(scripts: nat -> CountryScript, n: nat): (k: nat)
    ensures k <= n
  {
    if n == 0 then 0
    else
      var k := CountriesRun(scripts, n - 1);
      if k < n - 1 || (n >= 2 && Dies(scripts(n - 2))) || scripts(n - 1).cancelledBefore then k else n
  }

  /** The process died in the last country it ran. */
  predicate Died(scripts: nat -> CountryScript, n: nat) {
    var done := CountriesRun(scripts, n);
    done > 0 && Dies(scripts(done - 1))
  }

  /** A country is run exactly when no death and no end of the context comes before it. */
  lemma {:induction false} RunExactly(scripts: nat -> CountryScript, n: nat, i: nat)
    requires i < n
    ensures i < CountriesRun(scripts, n)
            <==> (forall k: nat :: k <= i ==> !scripts(k).cancelledBefore) && forall k: nat :: k < i ==> scripts(k).crash == NoCrash
  {
    if i < n - 1 {
      RunExactly(scripts, n - 1, i);
    } else if i > 0 {
      RunExactly(scripts, i, i - 1);
    }
  }

  lemma DiedExactly(scripts: nat -> CountryScript, n: nat)
    ensures Died(scripts, n) <==> exists i: nat :: i < CountriesRun(scripts, n) && scripts(i).crash != NoCrash
  {
    var done := CountriesRun(scripts, n);
    if i: nat :| i < done && scripts(i).crash != NoCrash {
      if i < done - 1 {
        RunExactly(scripts, n, done - 1);
      }
    }
  }

  /** The machine after the first k countries. */
  function RunCountries(m: Machine, countries: seq<Country>, scripts: nat -> CountryScript, k: nat): (after: Machine)
    requires UsableCache(m.budget.cache) && k <= |countries|
    ensures UsableCache(after.budget.cache)
  {
    if k == 0 then m else RunCountry(RunCountries(m, countries, scripts, k - 1), countries[k - 1], scripts(k - 1))
  }

  // ---------------------------------------------------------------- every tick is a history

  /** The alert histories of the first k countries. */
  function Script(m: Machine, countries: seq<Country>, scripts: nat -> CountryScript, k: nat): seq<RunScript>
    requires UsableCache(m.budget.cache) && k <= |countries|
  {
    if k == 0 then []
    else
      Script(m, countries, scripts, k - 1)
      + [AsRun(RunCountries(m, countries, scripts, k - 1), countries[k - 1], scripts(k - 1))]
  }

  /** One scheduled run: its clock reading and what the world does for each country. */
  datatype Tick = Tick(now: int, scripts: nat -> CountryScript)

  function FreshBudget(now: int): Budget { Budget(MAX_GDACS_REQUESTS_PER_RUN, now + GDACS_RUN_BUDGET_MS, map[]) }

  /** The tables after a sequence of ticks; every tick starts a budget of its own. */
  function RunTicks(ticks: seq<Tick>): (Table, Runs) {
    if ticks == [] then (map[], [])
    else
      var before := RunTicks(ticks[..|ticks| - 1]);
      var t := ticks[|ticks| - 1];
      var after := RunCountries(Machine(before.0, before.1, FreshBudget(t.now)), DEFAULT_COUNTRIES, t.scripts,
                                CountriesRun(t.scripts, |DEFAULT_COUNTRIES|));
      (after.rows, after.runs)
  }

  /** The alert history of a sequence of ticks. */
  function HistoryOf(ticks: seq<Tick>): seq<RunScript> {
    if ticks == [] then []
    else
      var init := ticks[..|ticks| - 1];
      var t := ticks[|ticks| - 1];
      HistoryOf(init)
      + Script(Machine(RunTicks(init).0, RunTicks(init).1, FreshBudget(t.now)), DEFAULT_COUNTRIES, t.scripts,
               CountriesRun(t.scripts, |DEFAULT_COUNTRIES|))
  }

  lemma {:induction false} ScriptPlays(
      h: seq<RunScript>, m: Machine, countries: seq<Country>, scripts: nat -> CountryScript, k: nat)
    requires UsableCache(m.budget.cache) && k <= |countries| && Play(h).runs == m.runs
    ensures Play(h + Script(m, countries, scripts, k)).runs == RunCountries(m, countries, scripts, k).runs
  {
    if k == 0 {
      assert h + [] == h;
    } else {
      ScriptPlays(h, m, countries, scripts, k - 1);
      var before := RunCountries(m, countries, scripts, k - 1);
      PlayCountry(h, Script(m, countries, scripts, k - 1), before, countries[k - 1], scripts(k - 1));
    }
  }

  lemma PlayCountry(h: seq<RunScript>, more: seq<RunScript>, m: Machine, country: Country, s: CountryScript)
    requires UsableCache(m.budget.cache) && Play(h + more).runs == m.runs
    ensures Play(h + (more + [AsRun(m, country, s)])).runs == RunCountry(m, country, s).runs
  {
    PlayNext(h + more, AsRun(m, country, s));
    assert h + (more + [AsRun(m, country, s)]) == h + more + [AsRun(m, country, s)];
  }

  lemma PlayNext(h: seq<RunScript>, s: RunScript)
    ensures Play(h + [s]).runs == PlayRun(Play(h).runs, s).runs
  {
    assert (h + [s])[..|h|] == h;
  }

  /**
   * The ledger of the running scheduler is that of an alert history: what is proved of every history
   * (deliveries bounded by faults, recorded times are deliveries) holds of every sequence of ticks.
   */
  lemma {:induction false} TicksAreHistories(ticks: seq<Tick>)
    ensures Play(HistoryOf(ticks)).runs == RunTicks(ticks).1
  {
    if ticks != [] {
      var init, t := ticks[..|ticks| - 1], ticks[|ticks| - 1];
      TicksAreHistories(init);
      ScriptPlays(HistoryOf(init), Machine(RunTicks(init).0, RunTicks(init).1, FreshBudget(t.now)),
                  DEFAULT_COUNTRIES, t.scripts, CountriesRun(t.scripts, |DEFAULT_COUNTRIES|));
    }
  }

  /** Every recorded alert time of the running scheduler is that of a delivery in the same streak. */
  lemma ScheduledAlertTimesAreDeliveries(ticks: seq<Tick>)
    ensures TimesAreDeliveries(Log(RunTicks(ticks).1, Play(HistoryOf(ticks)).deliveries))
  {
    TicksAreHistories(ticks);
    AlertTimesAreDeliveries(HistoryOf(ticks));
  }

  // ---------------------------------------------------------------- the run

  method RunScheduledIngest(
      store: Events, ledger: IngestionRuns, budget: RunBudget, country: Country, s: CountryScript)
    returns (delivered: Option<int>, failureMailed: bool)
    requires budget.Valid() && UsableCache(budget.cache)
    modifies store, ledger, budget
    ensures budget.Valid() && UsableCache(budget.cache)
    ensures var m := Machine(old(store.rows), old(ledger.runs), old(budget.State()));
            && Machine(store.rows, ledger.runs, budget.State()) == RunCountry(m, country, s)
            && delivered == PlayRun(m.runs, AsRun(m, country, s)).delivered
            && failureMailed == FailureMailed(m, country, s)
  {
    if s.crash == BeforeCreate {
      return None, false;
    }
    if s.crash == BeforeComplete {
      DieInRun(store, ledger, budget, country, s);
      return None, false;
    }
    delivered, failureMailed := RunToCompletion(store, ledger, budget, country, s);
  }

  /** A run that lives to complete its row. */
  method RunToCompletion(
      store: Events, ledger: IngestionRuns, budget: RunBudget, country: Country, s: CountryScript)
    returns (delivered: Option<int>, failureMailed: bool)
    requires budget.Valid() && UsableCache(budget.cache) && !(s.crash in {BeforeCreate, BeforeComplete})
    modifies store, ledger, budget
    ensures budget.Valid() && UsableCache(budget.cache)
    ensures var m := Machine(old(store.rows), old(ledger.runs), old(budget.State()));
            && Machine(store.rows, ledger.runs, budget.State()) == RunCountry(m, country, s)
            && delivered == PlayRun(m.runs, AsRun(m, country, s)).delivered
            && failureMailed == FailureMailed(m, country, s)
  {
    ghost var run := AsRun(Machine(store.rows, ledger.runs, budget.State()), country, s);
    ghost var runs := ledger.runs;
    var result, report := IngestWithBudget(store, ledger, budget, country.code, country.bbox, s.requests, s.create, s.complete);
    HonestOutcome(runs, country.code, run.counters, run.runErr, s.create, s.complete);
    if report.err.Some? {
      return None, s.enabled && s.sendOk && s.crash != BeforeNotify && s.crash != BeforeSend;
    }
    if s.crash == BeforeNotify {
      return None, false;
    }
    var c := result.Counts();
    delivered := NotifyIfDegraded(ledger, report.run.value.id,
      RunScript(country.code, c, None, s.create, s.complete, s.enabled, s.lookupOk, s.sendOk, s.sentAt, s.mark, s.crash));
    failureMailed := false;
  }

  /** The process creates the row, does some of the work, and dies: the row stays running. */
  method DieInRun(store: Events, ledger: IngestionRuns, budget: RunBudget, country: Country, s: CountryScript)
    requires budget.Valid() && UsableCache(budget.cache)
    modifies store, ledger, budget
    ensures budget.Valid() && UsableCache(budget.cache)
    ensures ledger.runs == Created(old(ledger.runs), country.code, s.create)
    ensures var w := World(old(store.rows), NO_COUNTS, old(budget.State()));
            var after := RunRequests(w, country.bbox, s.requests).0;
            store.rows == after.rows && budget.State() == after.budget
  {
    var _ := ledger.CreateIngestionRun(country.code, s.create);
    var result := new IngestResult();
    var _ := RunIngest(store, result, budget, country.bbox, s.requests);
  }

  /** One budget for the whole run: across all countries, requests issued and left make 60, all before the deadline. */
  method RunAllCountries(store: Events, ledger: IngestionRuns, now: int, scripts: nat -> CountryScript)
    returns (budget: RunBudget, died: bool)
    modifies store, ledger
    ensures fresh(budget) && budget.Valid() && budget.deadline == now + GDACS_RUN_BUDGET_MS
    ensures died == Died(scripts, |DEFAULT_COUNTRIES|)
    ensures var m := Machine(old(store.rows), old(ledger.runs), FreshBudget(now));
            Machine(store.rows, ledger.runs, budget.State())
            == RunCountries(m, DEFAULT_COUNTRIES, scripts, CountriesRun(scripts, |DEFAULT_COUNTRIES|))
  {
    budget := new RunBudget(now);
    died := false;
    ghost var m := Machine(store.rows, ledger.runs, budget.State());
    for i := 0 to |DEFAULT_COUNTRIES|
      invariant fresh(budget) && budget.Valid() && UsableCache(budget.cache)
      invariant !died && CountriesRun(scripts, i) == i && (i > 0 ==> !Dies(scripts(i - 1)))
      invariant Machine(store.rows, ledger.runs, budget.State()) == RunCountries(m, DEFAULT_COUNTRIES, scripts, i)
    {
      if scripts(i).cancelledBefore {
        StoppedAt(scripts, i, |DEFAULT_COUNTRIES|);
        return;
      }
      var _, _ := RunScheduledIngest(store, ledger, budget, DEFAULT_COUNTRIES[i], scripts(i));
      assert CountriesRun(scripts, i + 1) == i + 1;
      if scripts(i).crash != NoCrash {
        StoppedAt(scripts, i + 1, |DEFAULT_COUNTRIES|);
        return budget, true;
      }
    }
  }

  /** Once a run is not begun, none after it is. */
  lemma {:induction false} StoppedAt(scripts: nat -> CountryScript, i: nat, n: nat)
    requires i <= n && CountriesRun(scripts, i) == i
    requires i < n ==> scripts(i).cancelledBefore || (i > 0 && Dies(scripts(i - 1)))
    ensures CountriesRun(scripts, n) == i
  {
    if n > i + 1 {
      StoppedAt(scripts, i, n - 1);
    }
  }

  /**
   * Nothing is touched without the lock; with it, the run happens, and only this holder's row is
   * released, unless the process died and left it. Where there is no lock table the run just happens.
   */
  method RunAllCountriesWithLock(
      locks: SchedulerLocks?, holder: string, localNow: int, databaseNow: int, acquire: Ack, release: Ack,
      store: Events, ledger: IngestionRuns, scripts: nat -> CountryScript)
    returns (ran: bool)
    modifies locks, store, ledger
    ensures ran == (locks == null || (acquire.Applied? && Acquirable(old(locks.locks), SCHEDULER_LOCK_NAME, holder, databaseNow)))
    ensures !ran ==> store.rows == old(store.rows) && ledger.runs == old(ledger.runs)
    ensures var m := Machine(old(store.rows), old(ledger.runs), FreshBudget(localNow));
            var after := RunCountries(m, DEFAULT_COUNTRIES, scripts, CountriesRun(scripts, |DEFAULT_COUNTRIES|));
            ran ==> store.rows == after.rows && ledger.runs == after.runs
    ensures locks != null ==>
              var until := localNow + SCHEDULER_LOCK_TTL_MS;
              var held := Acquired(old(locks.locks), SCHEDULER_LOCK_NAME, holder, until, databaseNow, acquire);
              locks.locks == if ran && !Died(scripts, |DEFAULT_COUNTRIES|)
                             then Released(held, SCHEDULER_LOCK_NAME, holder, release) else held
  {
    ran := true;
    if locks != null {
      ran := locks.TryAcquireSchedulerLock(
        SCHEDULER_LOCK_NAME, holder, localNow + SCHEDULER_LOCK_TTL_MS, databaseNow, acquire);
    }
    if !ran {
      return;
    }
    var budget, died := RunAllCountries(store, ledger, localNow, scripts);
    if locks != null && !died {
      locks.ReleaseSchedulerLock(SCHEDULER_LOCK_NAME, holder, release);
    }
  }
}
