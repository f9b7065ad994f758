/**
 * A whole run for one country (runIngest, runOutcome and IngestWithBudget in
 * api/internal/ingestor/eonet.go): two responses, one outcome, one ledger row.
 */
module IngestRuns {
  import opened Wrappers
  import opened Geometry
  import opened RunBudgets
  import opened Normalizer
  import opened EventStore
  import opened Ingest
  import opened Ledger
  import Fetch

  /** What happens around one of the two requests: cancellation first, then the server, then the events. */
  datatype RequestScript = RequestScript(
    cancelled: bool,
    buildable: bool,
    replies: nat -> Fetch.Reply<seq<RawEvent>>,
    sleepOk: nat -> bool,
    weather: nat -> EventWeather)

  // ---------------------------------------------------------------- both responses

  function FetchResult(s: RequestScript): Fetch.Result<seq<RawEvent>> {
    Fetch.Fetched(s.buildable, s.replies, s.sleepOk).result
  }

  /** The decoded events of a fetch; an empty body decodes to nothing. */
  function Decoded(r: Fetch.Result<seq<RawEvent>>): Option<seq<RawEvent>> {
    if r.Body? then r.decoded else None
  }

  function RunRequest(w: World, bbox: Box, s: RequestScript): (r: (World, Option<Cause>))
    requires UsableCache(w.budget.cache)
    ensures UsableCache(r.0.budget.cache)
  {
    if s.cancelled then (w, Some(ContextEnded))
    else
      var fetched := FetchResult(s);
      if fetched.Failed? then (w, Some(FetchFailed))
      else
        match ProcessBody(w, bbox, Decoded(fetched), s.weather)
        case None => (w, Some(DecodeFailed))
        case Some(p) => (p.world, if p.abort.Some? then Some(ResponseAbandoned) else None)
  }

  /** The requests one after the other, up to the first error. */
  function RunRequests(w: World, bbox: Box, scripts: seq<RequestScript>): (r: (World, Option<Cause>))
    requires UsableCache(w.budget.cache)
    ensures UsableCache(r.0.budget.cache)
  {
    if scripts == [] then (w, None)
    else
      var before := RunRequests(w, bbox, scripts[..|scripts| - 1]);
      if before.1.Some? then before else RunRequest(before.0, bbox, scripts[|scripts| - 1])
  }

  /** The response to this request was a 200 whose body was read, decoded, and processed to its last event. */
  ghost predicate CompleteResponse(s: RequestScript, raws: seq<RawEvent>) {
    && !s.cancelled && FetchResult(s) == Fetch.Body(Some(raws))
    && exists a: nat :: a <= Fetch.MAX_RETRIES && s.replies(a).HttpReply? && s.replies(a).status == 200
         && s.replies(a).page == Fetch.Bytes(Some(raws))
  }

  /** The request got a complete response and, from world w, every event in it was processed. */
  ghost predicate FullyProcessed(w: World, bbox: Box, s: RequestScript)
    requires UsableCache(w.budget.cache)
  {
    exists raws :: CompleteResponse(s, raws) && ProcessBody(w, bbox, Some(raws), s.weather).value.abort.None?
  }

  lemma NoErrorRequest(w: World, bbox: Box, s: RequestScript)
    requires UsableCache(w.budget.cache) && RunRequest(w, bbox, s).1.None?
    ensures FullyProcessed(w, bbox, s)
  {
    var raws := FetchResult(s).decoded.value;
    Fetch.BodyComesFromOk(s.replies, s.sleepOk, 0, 0);
    assert CompleteResponse(s, raws);
  }

  lemma NoErrorBefore(w: World, bbox: Box, scripts: seq<RequestScript>)
    requires UsableCache(w.budget.cache) && scripts != [] && RunRequests(w, bbox, scripts).1.None?
    ensures var before := RunRequests(w, bbox, scripts[..|scripts| - 1]);
            before.1.None? && RunRequest(before.0, bbox, scripts[|scripts| - 1]).1.None?
  {
  }

  /** Request i of a run was fully processed, from the world it met. */
  ghost predicate ProcessedAt(w: World, bbox: Box, scripts: seq<RequestScript>, i: nat)
    requires UsableCache(w.budget.cache) && i < |scripts|
  {
    FullyProcessed(RunRequests(w, bbox, scripts[..i]).0, bbox, scripts[i])
  }

  lemma ProcessedInPrefix(w: World, bbox: Box, scripts: seq<RequestScript>, n: nat, i: nat)
    requires UsableCache(w.budget.cache) && i < n <= |scripts|
    ensures ProcessedAt(w, bbox, scripts[..n], i) == ProcessedAt(w, bbox, scripts, i)
  {
    assert scripts[..n][..i] == scripts[..i];
  }

  /** A run without error saw a complete response to every request: an empty body never passes for one. */
  lemma {:induction false} NoErrorMeansComplete(w: World, bbox: Box, scripts: seq<RequestScript>, i: nat)
    requires UsableCache(w.budget.cache) && RunRequests(w, bbox, scripts).1.None? && i < |scripts|
    ensures ProcessedAt(w, bbox, scripts, i)
  {
    var n := |scripts| - 1;
    NoErrorBefore(w, bbox, scripts);
    if i < n {
      NoErrorMeansComplete(w, bbox, scripts[..n], i);
      ProcessedInPrefix(w, bbox, scripts, n, i);
    } else {
      NoErrorRequest(RunRequests(w, bbox, scripts[..n]).0, bbox, scripts[n]);
    }
  }

  // ---------------------------------------------------------------- the outcome

  function ResultCauses(c: Counters): seq<Cause> {
    (if c.storageErrors > 0 then [EventsNotWritten(c.storageErrors)] else [])
    + if c.upstreamFailed > 0 then [PolygonsNotAnswered(c.upstreamFailed)] else []
  }

  function RunOutcome(c: Counters, err: Option<seq<Cause>>): (RunStatus, Option<seq<Cause>>) {
    if err.Some? then (Failure, Some(err.value + ResultCauses(c)))
    else if c.storageErrors > 0 then (Failure, Some(ResultCauses(c)))
    else if c.upstreamFailed > 0 then (Degraded, Some([PolygonsNotAnswered(c.upstreamFailed)]))
    else (Success, None)
  }

  /** Failure, degraded and success partition the outcomes, and the message names every cause there is. */
  lemma OutcomeExactly(c: Counters, err: Option<seq<Cause>>)
    ensures var (status, message) := RunOutcome(c, err);
            && (status == Failure <==> err.Some? || c.storageErrors > 0)
            && (status == Degraded <==> err.None? && c.storageErrors == 0 && c.upstreamFailed > 0)
            && (status == Success <==> message.None?)
            && status != Running
            && forall k :: message.Some? && k in message.value
                 <==> (err.Some? && k in err.value)
                      || (c.storageErrors > 0 && k == EventsNotWritten(c.storageErrors))
                      || (c.upstreamFailed > 0 && k == PolygonsNotAnswered(c.upstreamFailed))
  {
  }

  datatype RunRecord = RunRecord(
    id: nat, status: RunStatus, fetched: nat, stored: nat, error: Option<seq<Cause>>)

  datatype Report = Report(run: Option<RunRecord>, err: Option<seq<Cause>>)

  function AsError(cause: Option<Cause>): Option<seq<Cause>> {
    if cause.Some? then Some([cause.value]) else None
  }

  /** The error before the row is completed: the run's own, a missing row, or lost writes. */
  function ErrorBeforeCompletion(c: Counters, runErr: Option<Cause>, created: bool): Option<seq<Cause>> {
    var err := if created then AsError(runErr)
               else Some((if runErr.Some? then [runErr.value] else []) + [RunNotRecorded]);
    if err.None? && RunOutcome(c, err).0 == Failure then RunOutcome(c, err).1 else err
  }

  /** The status and message the row is completed with. */
  function RecordedOutcome(c: Counters, runErr: Option<Cause>, created: bool): (RunStatus, Option<seq<Cause>>) {
    var err := if created then AsError(runErr)
               else Some((if runErr.Some? then [runErr.value] else []) + [RunNotRecorded]);
    RunOutcome(c, err)
  }

  /** What follows the fetch-and-store work: the ledger row and the report to the scheduler. */
  function Finish(runs: Runs, id: Option<nat>, c: Counters, runErr: Option<Cause>, ack: Ack): (Runs, Report) {
    var err := ErrorBeforeCompletion(c, runErr, id.Some?);
    var (status, message) := RecordedOutcome(c, runErr, id.Some?);
    if id.None? then (runs, Report(None, err))
    else
      var after := Completed(runs, id.value, status, c.fetched, c.stored, message, ack);
      if ack.Applied? && 1 <= id.value <= |runs| then
        (after, Report(Some(RunRecord(id.value, status, c.fetched, c.stored, message)), err))
      else
        var failed := Some((if err.Some? then err.value else []) + [RunNotCompleted(status)]);
        var (finalStatus, finalMessage) := RunOutcome(c, failed);
        (after, Report(Some(RunRecord(id.value, finalStatus, c.fetched, c.stored, finalMessage)), failed))
  }

  /** The ledger and report of a run whose work ended with these counters and this error. */
  function RecordRun(runs: Runs, country: string, c: Counters, runErr: Option<Cause>, create: Ack, complete: Ack)
    : (Runs, Report)
  {
    var created := Created(runs, country, create);
    Finish(created, if create.Applied? then Some(|created|) else None, c, runErr, complete)
  }

  predicate Healthy(status: RunStatus) { status == Success || status == Degraded }

  /** The row says what the record says. */
  predicate RowAgrees(runs: Runs, record: RunRecord) {
    && 1 <= record.id <= |runs|
    && runs[record.id - 1].status == record.status && runs[record.id - 1].fetched == record.fetched
    && runs[record.id - 1].stored == record.stored && runs[record.id - 1].error == record.error
  }

  /** Failed if anything failed, degraded if only GDACS did not answer, else a success. */
  function StatusOf(runErr: Option<Cause>, c: Counters): RunStatus {
    match (runErr, c.storageErrors, c.upstreamFailed)
    case (None, 0, 0) => Success
    case (None, 0, _) => Degraded
    case _ => Failure
  }

  /** What the run leaves in the ledger, and that the record the caller gets has the same counts. */
  lemma RowTellsTheRun(runs: Runs, country: string, c: Counters, runErr: Option<Cause>, create: Ack, complete: Ack)
    ensures var (after, report) := RecordRun(runs, country, c, runErr, create, complete);
            && runs <= after && |after| == |runs| + (if create.Refused? then 0 else 1)
            && (!create.Refused? ==>
                  var row := after[|runs|];
                  && row.country == country && row.alertSentAt == None
                  && (if create.Applied? && !complete.Refused?
                      then row.status == StatusOf(runErr, c) && row.fetched == c.fetched && row.stored == c.stored
                      else row.status == Running && row.fetched == row.stored == 0))
            && (report.run.Some? <==> create.Applied?)
            && (create.Applied? ==>
                  var record := report.run.value;
                  record.id == |runs| + 1 && record.fetched == c.fetched && record.stored == c.stored)
  {
  }

  /** The run's own failure, a missing or uncompleted row, or lost writes if nothing came before them. */
  predicate Reported(k: Cause, c: Counters, runErr: Option<Cause>, create: Ack, complete: Ack) {
    || runErr == Some(k)
    || (k == RunNotRecorded && !create.Applied?)
    || (k == RunNotCompleted(StatusOf(runErr, c)) && create.Applied? && !complete.Applied?)
    || (runErr == None && create.Applied? && c.storageErrors > 0 && Counted(k, c))
  }

  /** What the counters tell against a run. */
  predicate Counted(k: Cause, c: Counters) {
    || (c.storageErrors > 0 && k == EventsNotWritten(c.storageErrors))
    || (c.upstreamFailed > 0 && k == PolygonsNotAnswered(c.upstreamFailed))
  }

  predicate Among(k: Cause, error: Option<seq<Cause>>) { error.Some? && k in error.value }

  /** Which causes the caller, the returned record and the completed row name: all there are, and no others. */
  lemma CausesExactly(runs: Runs, country: string, c: Counters, runErr: Option<Cause>, create: Ack, complete: Ack, k: Cause)
    ensures var (after, report) := RecordRun(runs, country, c, runErr, create, complete);
            && (Among(k, report.err) <==> Reported(k, c, runErr, create, complete))
            && (report.run.Some? ==>
                  (Among(k, report.run.value.error) <==> Reported(k, c, runErr, create, complete) || Counted(k, c)))
            && (create.Applied? && !complete.Refused? ==>
                  (Among(k, after[|runs|].error) <==> runErr == Some(k) || Counted(k, c)))
  {
    var created := Created(runs, country, create);
    OutcomeExactly(c, AsError(runErr));
    OutcomeExactly(c, ErrorBeforeCompletion(c, runErr, create.Applied?));
  }

  /** Why a request ends a run: in this order, the context, the fetch, the body, an event. */
  lemma CauseExactly(w: World, bbox: Box, s: RequestScript)
    requires UsableCache(w.budget.cache)
    ensures var (after, cause) := RunRequest(w, bbox, s);
            var result := Fetch.Fetched(s.buildable, s.replies, s.sleepOk).result;
            && (cause == Some(ContextEnded) <==> s.cancelled)
            && (cause == Some(FetchFailed) <==> !s.cancelled && result == Fetch.Failed)
            && (cause == Some(DecodeFailed) <==> !s.cancelled && result in {Fetch.NoBody, Fetch.Body(None)})
            && (cause in {None, Some(ContextEnded), Some(FetchFailed), Some(DecodeFailed), Some(ResponseAbandoned)})
            && (cause in {Some(ContextEnded), Some(FetchFailed), Some(DecodeFailed)} ==> after == w)
            && (cause in {None, Some(ResponseAbandoned)} ==>
                  && !s.cancelled && result.Body? && result.decoded.Some?
                  && ProcessBody(w, bbox, result.decoded, s.weather).Some?
                  && after == ProcessBody(w, bbox, result.decoded, s.weather).value.world
                  && (cause.None? <==> ProcessBody(w, bbox, result.decoded, s.weather).value.abort.None?))
  {
  }

  /**
   * No error is reported exactly when the row was created and its completion acknowledged, and the
   * row holds success or degraded; and then row, record and outcome agree.
   */
  lemma HonestOutcome(runs: Runs, country: string, c: Counters, runErr: Option<Cause>, create: Ack, complete: Ack)
    ensures var (after, report) := RecordRun(runs, country, c, runErr, create, complete);
            && (report.err.None? <==>
                  (&& create.Applied? && complete.Applied?
                   && |after| == |runs| + 1 && Healthy(after[|runs|].status)))
            && (report.err.None? ==>
                  (&& report.run.Some? && RowAgrees(after, report.run.value) && report.run.value.id == |after|
                   && RunOutcome(c, None) == (report.run.value.status, report.run.value.error) && runErr.None?))
  {
  }

  /** No error is reported exactly when this run left a healthy row and was told so. */
  lemma LedgerTellsTheOutcome(runs: Runs, country: string, c: Counters, runErr: Option<Cause>, create: Ack, complete: Ack)
    ensures var (after, report) := RecordRun(runs, country, c, runErr, create, complete);
            report.err.None? <==> |after| > |runs| && Healthy(after[|runs|].status) && complete.Applied?
  {
  }

  /**
   * A failure is reported although this run left a healthy row exactly when the work and every write
   * succeeded and the completion alone was applied without being acknowledged; the returned record
   * then says failure, and the row does not.
   */
  lemma LostAcknowledgement(runs: Runs, country: string, c: Counters, runErr: Option<Cause>, create: Ack, complete: Ack)
    ensures var (after, report) := RecordRun(runs, country, c, runErr, create, complete);
            && (report.err.Some? && |after| > |runs| && Healthy(after[|runs|].status)
                <==> create.Applied? && complete.AppliedUnacknowledged? && runErr.None? && c.storageErrors == 0)
            && (report.err.Some? && |after| > |runs| && Healthy(after[|runs|].status) ==>
                  report.run.Some? && report.run.value.status == Failure && !RowAgrees(after, report.run.value))
  {
  }

  /**
   * Nothing can fail silently: no error is reported exactly when the work, the row's creation, every
   * event write and the completion all succeeded. Earlier rows stay as they were, and the record of a
   * failed run says failure.
   */
  lemma NoSilentFailure(runs: Runs, country: string, c: Counters, runErr: Option<Cause>, create: Ack, complete: Ack)
    ensures var (after, report) := RecordRun(runs, country, c, runErr, create, complete);
            && (report.err.None? <==> runErr.None? && create.Applied? && complete.Applied? && c.storageErrors == 0)
            && runs <= after
            && (report.err.Some? ==> report.run.None? || report.run.value.status == Failure)
  {
  }

  // ---------------------------------------------------------------- the run itself

  method RunIngest(
      store: Events, result: IngestResult, budget: RunBudget, bbox: Box, scripts: seq<RequestScript>)
    returns (err: Option<Cause>)
    requires budget.Valid() && UsableCache(budget.cache)
    modifies store, result, budget
    ensures budget.Valid() && UsableCache(budget.cache)
    ensures (WorldOf(store, result, budget), err) == RunRequests(old(WorldOf(store, result, budget)), bbox, scripts)
  {
    ghost var start := WorldOf(store, result, budget);
    err := None;
    for i := 0 to |scripts|
      invariant budget.Valid() && UsableCache(budget.cache) && err.None?
      invariant RunRequests(start, bbox, scripts[..i]) == (WorldOf(store, result, budget), None)
    {
      assert scripts[..i + 1][..i] == scripts[..i];
      err := RunOneRequest(store, result, budget, bbox, scripts[i]);
      if err.Some? {
        ErrorStops(start, bbox, scripts, i + 1);
        return;
      }
    }
    assert scripts[..|scripts|] == scripts;
  }

  lemma {:induction false} ErrorStops(w: World, bbox: Box, scripts: seq<RequestScript>, k: nat)
    requires UsableCache(w.budget.cache) && k <= |scripts| && RunRequests(w, bbox, scripts[..k]).1.Some?
    ensures RunRequests(w, bbox, scripts) == RunRequests(w, bbox, scripts[..k])
  {
    if k < |scripts| {
      assert scripts[..|scripts| - 1][..k] == scripts[..k];
      ErrorStops(w, bbox, scripts[..|scripts| - 1], k);
    } else {
      assert scripts[..k] == scripts;
    }
  }

  method RunOneRequest(
      store: Events, result: IngestResult, budget: RunBudget, bbox: Box, s: RequestScript)
    returns (err: Option<Cause>)
    requires budget.Valid() && UsableCache(budget.cache)
    modifies store, result, budget
    ensures budget.Valid() && UsableCache(budget.cache)
    ensures (WorldOf(store, result, budget), err) == RunRequest(old(WorldOf(store, result, budget)), bbox, s)
  {
    if s.cancelled {
      return Some(ContextEnded);
    }
    var fetched, _, _ := Fetch.FetchEONET(s.buildable, s.replies, s.sleepOk);
    if fetched.Failed? {
      return Some(FetchFailed);
    }
    var decoded, abort := ProcessEONETBody(store, result, budget, bbox, Decoded(fetched), s.weather);
    if !decoded {
      return Some(DecodeFailed);
    }
    err := if abort.Some? then Some(ResponseAbandoned) else None;
  }

  /** IngestWithBudget: create the row, run both requests, record the outcome. */
  method IngestWithBudget(
      store: Events, ledger: IngestionRuns, budget: RunBudget, country: string, bbox: Box,
      scripts: seq<RequestScript>, create: Ack, complete: Ack)
    returns (result: IngestResult, report: Report)
    requires budget.Valid() && UsableCache(budget.cache)
    modifies store, ledger, budget
    ensures budget.Valid() && UsableCache(budget.cache)
    ensures fresh(result)
    ensures var w := World(old(store.rows), NO_COUNTS, old(budget.State()));
            var (after, runErr) := RunRequests(w, bbox, scripts);
            && WorldOf(store, result, budget) == after
            && (ledger.runs, report) == RecordRun(old(ledger.runs), country, after.counters, runErr, create, complete)
  {
    var id := ledger.CreateIngestionRun(country, create);
    result := new IngestResult();
    var runErr := RunIngest(store, result, budget, bbox, scripts);
    var c := result.Counts();
    var err := if id.Some? then AsError(runErr)
               else Some((if runErr.Some? then [runErr.value] else []) + [RunNotRecorded]);
    var (status, message) := RunOutcome(c, err);
    if err.None? && status == Failure {
      err := message;
    }
    if id.None? {
      return result, Report(None, err);
    }
    var ok := ledger.CompleteIngestionRun(id.value, status, c.fetched, c.stored, message, complete);
    if !ok {
      err := Some((if err.Some? then err.value else []) + [RunNotCompleted(status)]);
      var (finalStatus, finalMessage) := RunOutcome(c, err);
      status, message := finalStatus, finalMessage;
    }
    report := Report(Some(RunRecord(id.value, status, c.fetched, c.stored, message)), err);
  }
}
