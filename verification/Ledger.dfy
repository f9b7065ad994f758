/**
 * The ingestion_runs ledger (api/internal/database/queries.go): one row a run, in id order, each
 * statement one atomic step. Run ids are the row's place in the sequence, counted from 1.
 */
module Ledger {
  import opened Wrappers
  import opened EventStore

  datatype RunStatus = Running | Success | Failure | Degraded

  /** The causes a run's error text names, in order. */
  datatype Cause =
    | ContextEnded
    | FetchFailed
    | DecodeFailed
    | ResponseAbandoned
    | RunNotRecorded
    | RunNotCompleted(status: RunStatus)
    | EventsNotWritten(count: nat)
    | PolygonsNotAnswered(count: nat)

  datatype Run = Run(
    country: string, status: RunStatus, fetched: nat, stored: nat,
    error: Option<seq<Cause>>, alertSentAt: Option<int>)

  type Runs = seq<Run>

  function Created(runs: Runs, country: string, ack: Ack): Runs {
    if ack.Refused? then runs else runs + [Run(country, Running, 0, 0, None, None)]
  }

  function Completed(runs: Runs, id: nat, status: RunStatus, fetched: nat, stored: nat, error: Option<seq<Cause>>, ack: Ack): Runs {
    if ack.Refused? || !(1 <= id <= |runs|) then runs
    else runs[id - 1 := runs[id - 1].(status := status, fetched := fetched, stored := stored, error := error)]
  }

  function Marked(runs: Runs, id: nat, at: int, ack: Ack): Runs {
    if ack.Refused? || !(1 <= id <= |runs|) then runs else runs[id - 1 := runs[id - 1].(alertSentAt := Some(at))]
  }

  /** The statements touch one row and, of it, their own columns; one that is refused or finds no row touches none. */
  lemma StatementsTouchTheirRow(
      runs: Runs, id: nat, country: string, status: RunStatus, fetched: nat, stored: nat, error: Option<seq<Cause>>, at: int, ack: Ack)
    ensures var created := Created(runs, country, ack);
            if ack.Refused? then created == runs
            else |created| == |runs| + 1 && runs <= created && created[|runs|] == Run(country, Running, 0, 0, None, None)
    ensures var completed, marked := Completed(runs, id, status, fetched, stored, error, ack), Marked(runs, id, at, ack);
            if ack.Refused? || id == 0 || id > |runs| then completed == marked == runs
            else
              && |completed| == |marked| == |runs|
              && (forall k :: 0 <= k < |runs| && k + 1 != id ==> completed[k] == marked[k] == runs[k])
              && var before, c, m := runs[id - 1], completed[id - 1], marked[id - 1];
                 && c == Run(before.country, status, fetched, stored, error, before.alertSentAt)
                 && m == Run(before.country, before.status, before.fetched, before.stored, before.error, Some(at))
  {
  }

  /** The latest run of the country with a smaller id that is no longer running. */
  function PreviousCompleted(runs: Runs, country: string, before: nat): Option<nat> {
    if before <= 1 || before > |runs| + 1 then None
    else
      var r := runs[before - 2];
      if r.country == country && r.status != Running then Some(before - 1)
      else PreviousCompleted(runs, country, before - 1)
  }

  /** It is the latest: nothing between it and the given id is a completed run of the country. */
  lemma {:induction false} PreviousCompletedIsLatest(runs: Runs, country: string, before: nat)
    requires 1 <= before <= |runs| + 1
    ensures match PreviousCompleted(runs, country, before)
            case None => forall i :: 0 <= i < before - 1 ==> runs[i].country != country || runs[i].status == Running
            case Some(id) =>
              && 1 <= id < before && runs[id - 1].country == country && runs[id - 1].status != Running
              && forall i :: id <= i < before - 1 ==> runs[i].country != country || runs[i].status == Running
  {
    if before > 1 {
      PreviousCompletedIsLatest(runs, country, before - 1);
    }
  }

  /** Only the rows before the id matter. */
  lemma {:induction false} PreviousCompletedPrefix(runs: Runs, more: Runs, country: string, before: nat)
    requires before <= |runs| + 1 && before <= |more| + 1
    requires forall i :: 0 <= i < before - 1 ==> runs[i] == more[i]
    ensures PreviousCompleted(runs, country, before) == PreviousCompleted(more, country, before)
  {
    if before > 1 {
      PreviousCompletedPrefix(runs, more, country, before - 1);
    }
  }

  class IngestionRuns {
    var runs: Runs

    constructor ()
      ensures runs == []
    {
      runs := [];
    }

    method CreateIngestionRun(country: string, ack: Ack) returns (id: Option<nat>)
      modifies this
      ensures runs == Created(old(runs), country, ack)
      ensures id == if ack.Applied? then Some(|runs|) else None
    {
      if !ack.Refused? {
        runs := runs + [Run(country, Running, 0, 0, None, None)];
      }
      id := if ack.Applied? then Some(|runs|) else None;
    }

    /** Fails when the statement fails, and also when it matches no row. */
    method CompleteIngestionRun(
        id: nat, status: RunStatus, fetched: nat, stored: nat, error: Option<seq<Cause>>, ack: Ack) returns (ok: bool)
      modifies this
      ensures runs == Completed(old(runs), id, status, fetched, stored, error, ack)
      ensures ok == (ack.Applied? && 1 <= id <= |old(runs)|)
    {
      ok := ack.Applied? && 1 <= id <= |runs|;
      runs := Completed(runs, id, status, fetched, stored, error, ack);
    }

    method MarkIngestionRunAlerted(id: nat, at: int, ack: Ack) returns (ok: bool)
      modifies this
      ensures runs == Marked(old(runs), id, at, ack)
      ensures ok == ack.Applied?
    {
      runs := Marked(runs, id, at, ack);
      ok := ack.Applied?;
    }
  }
}
