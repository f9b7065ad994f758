/**
 * Degraded alerts: once per streak, keyed on delivery (degradedAlertAction, notifyIfDegraded and
 * runScheduledIngest in api/internal/ingestor/scheduler.go). Runs are sequential here, which is what
 * the lease gives several replicas (LeasedRuns); every statement and send may fail, and the process
 * may crash between any two steps.
 */
module DegradedAlerts {
  import opened Arithmetic
  import opened Wrappers
  import opened EventStore
  import opened Ingest
  import opened Ledger
  import opened IngestRuns

  datatype AlertAction = NoAlert | Send | Carry

  /** Where the process dies during a run, if it does. */
  datatype Crash = NoCrash | BeforeCreate | BeforeComplete | BeforeNotify | BeforeSend | BeforeMark

  /** One scheduled run of one country: how its work ended, and what the world did around it. */
  datatype RunScript = RunScript(
    country: string, counters: Counters, runErr: Option<Cause>, create: Ack, complete: Ack,
    enabled: bool, lookupOk: bool, sendOk: bool, sentAt: int, mark: Ack, crash: Crash)

  function ActionFor(c: Counters, prev: Option<Run>, lookupOk: bool): AlertAction {
    if RunOutcome(c, None).0 != Degraded then NoAlert
    else if lookupOk && prev.Some? && prev.value.status == Degraded && prev.value.alertSentAt.Some? then Carry
    else Send
  }

  /** The ledger after a step, the time of a delivery if there was one, and the faults met. */
  datatype Noted = Noted(runs: Runs, delivered: Option<int>, faults: nat)

  function Notify(runs: Runs, id: nat, s: RunScript): Noted {
    var degraded := RunOutcome(s.counters, None).0 == Degraded;
    if !s.enabled then Noted(runs, None, OneIf(degraded))
    else
      var found := PreviousCompleted(runs, s.country, id);
      PreviousCompletedInRange(runs, s.country, id);
      var prev := if s.lookupOk && found.Some? then Some(runs[found.value - 1]) else None;
      match ActionFor(s.counters, prev, s.lookupOk)
      case NoAlert => Noted(runs, None, 0)
      case Carry =>
        if s.crash in {BeforeSend, BeforeMark} then Noted(runs, None, 1)
        else Noted(Marked(runs, id, prev.value.alertSentAt.value, s.mark), None, OneIf(!s.mark.Applied?))
      case Send =>
        var blind := OneIf(!s.lookupOk);
        if s.crash == BeforeSend then Noted(runs, None, blind + 1)
        else if !s.sendOk then Noted(runs, None, blind)
        else if s.crash == BeforeMark then Noted(runs, Some(s.sentAt), blind + 1)
        else Noted(Marked(runs, id, s.sentAt, s.mark), Some(s.sentAt), blind + OneIf(!s.mark.Applied?))
  }

  /**
   * One scheduled run. Faults are disabled alerting, a failed lookup, a failed or unacknowledged mark
   * or completion of a degraded row, and a crash after such a row was completed; a failed send and an
   * orphaned running row are none.
   */
  function PlayRun(runs: Runs, s: RunScript): Noted {
    if s.crash == BeforeCreate then Noted(runs, None, 0)
    else if s.crash == BeforeComplete then Noted(Created(runs, s.country, s.create), None, 0)
    else
      var (after, report) := RecordRun(runs, s.country, s.counters, s.runErr, s.create, s.complete);
      HonestOutcome(runs, s.country, s.counters, s.runErr, s.create, s.complete);
      if report.err.Some? then
        Noted(after, None, OneIf(|after| > |runs| && after[|runs|].status == Degraded))
      else if s.crash == BeforeNotify then Noted(after, None, OneIf(after[|runs|].status == Degraded))
      else Notify(after, report.run.value.id, s)
  }

  lemma PreviousCompletedInRange(runs: Runs, country: string, before: nat)
    ensures var r := PreviousCompleted(runs, country, before); r.Some? ==> 1 <= r.value <= |runs| && r.value < before
  {
    if 1 < before <= |runs| + 1 {
      PreviousCompletedIsLatest(runs, country, before);
    }
  }

  // ---------------------------------------------------------------- one run's effect on the ledger

  /** The latest completed run of the country is degraded and its streak's alert is recorded. */
  predicate Alerted(runs: Runs, country: string) {
    var id := PreviousCompleted(runs, country, |runs| + 1);
    PreviousCompletedInRange(runs, country, |runs| + 1);
    id.Some? && runs[id.value - 1].status == Degraded && runs[id.value - 1].alertSentAt.Some?
  }

  lemma AlertedAppend(runs: Runs, r: Run, country: string)
    ensures Alerted(runs + [r], country) ==
            if r.country == country && r.status != Running then r.status == Degraded && r.alertSentAt.Some?
            else Alerted(runs, country)
  {
    var more := runs + [r];
    PreviousCompletedPrefix(runs, more, country, |runs| + 1);
    PreviousCompletedInRange(runs, country, |runs| + 1);
    assert more[|more| - 1] == r;
    if !(r.country == country && r.status != Running) {
      assert PreviousCompleted(more, country, |more| + 1) == PreviousCompleted(more, country, |runs| + 1);
    }
  }

  /** A run appends at most one row and touches no other. */
  lemma PlayRunAppends(runs: Runs, s: RunScript)
    ensures var after := PlayRun(runs, s).runs;
            after == runs || (|after| == |runs| + 1 && after[..|runs|] == runs && after[|runs|].country == s.country)
    ensures PlayRun(runs, s).delivered.Some? ==>
              |PlayRun(runs, s).runs| == |runs| + 1 && PlayRun(runs, s).runs[|runs|].status == Degraded
  {
    HonestOutcome(runs, s.country, s.counters, s.runErr, s.create, s.complete);
  }

  /** The run adds no completed row to its country that is not degraded: the streak, if any, goes on. */
  predicate StreakGoesOn(runs: Runs, s: RunScript) {
    var after := PlayRun(runs, s).runs;
    |after| > |runs| ==> after[|runs|].status in {Running, Degraded}
  }

  // ---------------------------------------------------------------- the account of one run

  /** The run completes a degraded row. */
  predicate CompletesDegraded(s: RunScript) {
    && s.create.Applied? && !s.complete.Refused? && !(s.crash in {BeforeCreate, BeforeComplete})
    && RunOutcome(s.counters, if s.runErr.Some? then Some([s.runErr.value]) else None).0 == Degraded
  }

  /** The notification step is reached, with alerting on. */
  predicate Notifies(s: RunScript) { s.complete.Applied? && s.enabled && s.crash != BeforeNotify }

  predicate SendGoesOut(s: RunScript) { s.sendOk && s.crash != BeforeSend }

  predicate MarkLands(s: RunScript) { !(s.crash in {BeforeSend, BeforeMark}) && !s.mark.Refused? }

  /** The previous completed run is seen to be alerted, so its time is carried instead of sending. */
  predicate Carries(s: RunScript, alerted: bool) { s.lookupOk && alerted }

  /**
   * What a degraded run loses of the record of its streak's alert: an alerted streak that is not
   * carried on (alerting off, or sent again blindly), and a mark that does not land.
   */
  function Loss(s: RunScript, alerted: bool): nat {
    if !CompletesDegraded(s) then 0
    else if !Notifies(s) then OneIf(alerted)
    else if Carries(s, alerted) then OneIf(!MarkLands(s))
    else OneIf(alerted) + OneIf(SendGoesOut(s) && !MarkLands(s))
  }

  /** A run delivers exactly when it completes degraded, gets to send, and has nothing to carry. */
  predicate Delivers(s: RunScript, alerted: bool) {
    CompletesDegraded(s) && Notifies(s) && !Carries(s, alerted) && SendGoesOut(s)
  }

  predicate Account(d: nat, loss: nat, before: bool, after: bool) { d + OneIf(before) == loss + OneIf(after) }

  lemma NotifyAccount(runs: Runs, row: Run, s: RunScript)
    requires row.country == s.country && row.status == Degraded && row.alertSentAt.None?
    requires CompletesDegraded(s) && s.complete.Applied? && s.crash != BeforeNotify
    ensures var n := Notify(runs + [row], |runs| + 1, s);
            var alerted := Alerted(runs, s.country);
            && |n.runs| == |runs| + 1
            && (n.delivered.Some? <==> Delivers(s, alerted))
            && Account(OneIf(n.delivered.Some?), Loss(s, alerted), alerted, n.runs[|runs|].alertSentAt.Some?)
            && Loss(s, alerted) <= n.faults
  {
    PreviousCompletedPrefix(runs, runs + [row], s.country, |runs| + 1);
    PreviousCompletedInRange(runs, s.country, |runs| + 1);
  }

  /** The new row, if the run completes it degraded, and only then. */
  lemma DegradedRow(runs: Runs, s: RunScript)
    ensures var after := PlayRun(runs, s).runs;
            CompletesDegraded(s) <==> |after| > |runs| && after[|runs|].status == Degraded
    ensures !(s.crash in {BeforeCreate, BeforeComplete}) && CompletesDegraded(s) ==>
              var (after, report) := RecordRun(runs, s.country, s.counters, s.runErr, s.create, s.complete);
              && |after| == |runs| + 1 && after == runs + [after[|runs|]]
              && after[|runs|].country == s.country && after[|runs|].alertSentAt.None?
              && (report.err.None? <==> s.complete.Applied?)
              && (report.run.Some? && report.run.value.id == |runs| + 1)
  {
    HonestOutcome(runs, s.country, s.counters, s.runErr, s.create, s.complete);
    PlayRunAppends(runs, s);
  }

  /**
   * The account of one run: deliveries plus the streak's alerted state before it equal what is lost
   * plus the alerted state after it. It delivers exactly as its script says, and loses no more than
   * it meets faults.
   */
  lemma RunAccount(runs: Runs, s: RunScript)
    requires StreakGoesOn(runs, s)
    ensures var n := PlayRun(runs, s);
            var alerted := Alerted(runs, s.country);
            && (n.delivered.Some? <==> Delivers(s, alerted))
            && Account(OneIf(n.delivered.Some?), Loss(s, alerted), alerted, Alerted(n.runs, s.country))
            && Loss(s, alerted) <= n.faults
  {
    var n := PlayRun(runs, s);
    PlayRunAppends(runs, s);
    DegradedRow(runs, s);
    if n.runs != runs {
      assert n.runs == runs + [n.runs[|runs|]];
      AlertedAppend(runs, n.runs[|runs|], s.country);
    }
    if CompletesDegraded(s) {
      var after := RecordRun(runs, s.country, s.counters, s.runErr, s.create, s.complete).0;
      if s.complete.Applied? && s.crash != BeforeNotify {
        NotifyAccount(runs, after[|runs|], s);
      }
    }
  }

  /** A delivery is the email of this run, at the time it went out. */
  lemma DeliveredWhen(runs: Runs, s: RunScript)
    ensures PlayRun(runs, s).delivered == if Delivers(s, Alerted(runs, s.country)) then Some(s.sentAt) else None
  {
    PlayRunAppends(runs, s);
    DegradedRow(runs, s);
    if StreakGoesOn(runs, s) {
      RunAccount(runs, s);
    }
  }

  // ---------------------------------------------------------------- whole histories

  datatype Delivery = Delivery(run: nat, at: int)

  datatype Log = Log(runs: Runs, deliveries: seq<Delivery>)

  function Record(log: Log, s: RunScript): Log {
    var n := PlayRun(log.runs, s);
    Log(n.runs,
        if n.delivered.Some? then log.deliveries + [Delivery(|n.runs|, n.delivered.value)] else log.deliveries)
  }

  /** The ledger and deliveries after a history of runs, of any countries, from an empty ledger. */
  function Play(h: seq<RunScript>): Log {
    if h == [] then Log([], []) else Record(Play(h[..|h| - 1]), h[|h| - 1])
  }

  /** The ledger before run k of a history. */
  function LedgerBefore(h: seq<RunScript>, k: nat): Runs
    requires k <= |h|
  {
    Play(h[..k]).runs
  }

  lemma LedgerNext(h: seq<RunScript>, k: nat)
    requires k < |h|
    ensures LedgerBefore(h, k + 1) == PlayRun(LedgerBefore(h, k), h[k]).runs
  {
    assert h[..k + 1][..k] == h[..k];
  }

  /** What run k delivers for a country, and the faults it meets there. */
  function DeliveredAt(h: seq<RunScript>, country: string, k: nat): nat
    requires k < |h|
  {
    OneIf(h[k].country == country && PlayRun(LedgerBefore(h, k), h[k]).delivered.Some?)
  }

  function FaultsAt(h: seq<RunScript>, country: string, k: nat): nat
    requires k < |h|
  {
    if h[k].country == country then PlayRun(LedgerBefore(h, k), h[k]).faults else 0
  }

  /** The sum of f over i, ..., j-1. */
  function Sum(f: nat -> nat, i: nat, j: nat): nat
    requires i <= j
  {
    if i == j then 0 else Sum(f, i, j - 1) + f(j - 1)
  }

  function Deliveries(h: seq<RunScript>, country: string): nat -> nat {
    (k: nat) => if k < |h| then DeliveredAt(h, country, k) else 0
  }

  function Faults(h: seq<RunScript>, country: string): nat -> nat {
    (k: nat) => if k < |h| then FaultsAt(h, country, k) else 0
  }

  /** Deliveries and faults among the runs i, ..., j-1. */
  function DeliveredIn(h: seq<RunScript>, country: string, i: nat, j: nat): nat
    requires i <= j <= |h|
  {
    Sum(Deliveries(h, country), i, j)
  }

  function FaultsIn(h: seq<RunScript>, country: string, i: nat, j: nat): nat
    requires i <= j <= |h|
  {
    Sum(Faults(h, country), i, j)
  }

  /** What run k loses for a country. */
  function LossAt(h: seq<RunScript>, country: string, k: nat): nat
    requires k < |h|
  {
    if h[k].country == country then Loss(h[k], AlertedAt(h, country, k)) else 0
  }

  function Losses(h: seq<RunScript>, country: string): nat -> nat {
    (k: nat) => if k < |h| then LossAt(h, country, k) else 0
  }

  function LossesIn(h: seq<RunScript>, country: string, i: nat, j: nat): nat
    requires i <= j <= |h|
  {
    Sum(Losses(h, country), i, j)
  }

  predicate AlertedAt(h: seq<RunScript>, country: string, k: nat)
    requires k <= |h|
  {
    Alerted(LedgerBefore(h, k), country)
  }

  /** Within i..j the country completes no run as success or failure: it is (part of) one degraded streak. */
  predicate OneStreak(h: seq<RunScript>, country: string, i: nat, j: nat)
    requires i <= j <= |h|
  {
    forall k :: i <= k < j ==> StreakGoesOnAt(h, country, k)
  }

  predicate StreakGoesOnAt(h: seq<RunScript>, country: string, k: nat)
    requires k < |h|
  {
    h[k].country == country ==> StreakGoesOn(LedgerBefore(h, k), h[k])
  }

  lemma OtherCountryUntouched(runs: Runs, s: RunScript, country: string)
    requires s.country != country
    ensures Alerted(PlayRun(runs, s).runs, country) == Alerted(runs, country)
  {
    PlayRunAppends(runs, s);
    var after := PlayRun(runs, s).runs;
    if after != runs {
      assert after == runs + [after[|runs|]];
      AlertedAppend(runs, after[|runs|], country);
    }
  }

  lemma AccountAt(h: seq<RunScript>, country: string, k: nat)
    requires k < |h| && StreakGoesOnAt(h, country, k)
    ensures Account(DeliveredAt(h, country, k), LossAt(h, country, k), AlertedAt(h, country, k), AlertedAt(h, country, k + 1))
    ensures LossAt(h, country, k) <= FaultsAt(h, country, k)
  {
    LedgerNext(h, k);
    if h[k].country == country {
      RunAccount(LedgerBefore(h, k), h[k]);
    } else {
      OtherCountryUntouched(LedgerBefore(h, k), h[k], country);
    }
  }

  lemma {:induction false} SumAccount(d: nat -> nat, loss: nat -> nat, alerted: nat -> bool, i: nat, j: nat)
    requires i <= j
    requires forall k: nat :: i <= k < j ==> Account(d(k), loss(k), alerted(k), alerted(k + 1))
    ensures Account(Sum(d, i, j), Sum(loss, i, j), alerted(i), alerted(j))
  {
    if i < j {
      SumAccount(d, loss, alerted, i, j - 1);
    }
  }

  lemma {:induction false} SumAtMost(f: nat -> nat, g: nat -> nat, i: nat, j: nat)
    requires i <= j && forall k: nat :: i <= k < j ==> f(k) <= g(k)
    ensures Sum(f, i, j) <= Sum(g, i, j)
  {
    if i < j {
      SumAtMost(f, g, i, j - 1);
    }
  }

  /**
   * The exact account of a streak, or any part of one: the deliveries are what it loses, plus one if
   * it ends alerted, minus one if it began alerted.
   */
  lemma StreakAccount(h: seq<RunScript>, country: string, i: nat, j: nat)
    requires i <= j <= |h| && OneStreak(h, country, i, j)
    ensures Account(DeliveredIn(h, country, i, j), LossesIn(h, country, i, j),
                    AlertedAt(h, country, i), AlertedAt(h, country, j))
  {
    var d, loss := Deliveries(h, country), Losses(h, country);
    var alerted := (k: nat) => k <= |h| && AlertedAt(h, country, k);
    forall k: nat | i <= k < j ensures Account(d(k), loss(k), alerted(k), alerted(k + 1)) {
      AccountAt(h, country, k);
    }
    SumAccount(d, loss, alerted, i, j);
  }

  /** A run has no fault unless it completes a degraded row, and none then if nothing around it goes wrong but the send. */
  lemma FaultsHaveCauses(runs: Runs, s: RunScript)
    ensures PlayRun(runs, s).faults > 0 ==>
              && CompletesDegraded(s)
              && !(s.complete.Applied? && s.enabled && s.lookupOk && s.mark.Applied? && s.crash == NoCrash)
    ensures PlayRun(runs, s).faults <= 2
  {
    HonestOutcome(runs, s.country, s.counters, s.runErr, s.create, s.complete);
  }

  lemma LossesAreFaults(h: seq<RunScript>, country: string, i: nat, j: nat)
    requires i <= j <= |h| && OneStreak(h, country, i, j)
    ensures LossesIn(h, country, i, j) <= FaultsIn(h, country, i, j)
  {
    var loss, f := Losses(h, country), Faults(h, country);
    forall k: nat | i <= k < j ensures loss(k) <= f(k) {
      AccountAt(h, country, k);
    }
    SumAtMost(loss, f, i, j);
  }

  /**
   * In every history, the deliveries within one degraded streak of a country are at most one more
   * than the faults in it, counting neither failed sends nor orphaned rows as faults.
   */
  lemma DeliveriesBoundedByFaults(h: seq<RunScript>, country: string, i: nat, j: nat)
    requires i <= j <= |h| && OneStreak(h, country, i, j)
    ensures DeliveredIn(h, country, i, j) <= 1 + LossesIn(h, country, i, j)
    ensures DeliveredIn(h, country, i, j) <= 1 + FaultsIn(h, country, i, j)
  {
    StreakAccount(h, country, i, j);
    LossesAreFaults(h, country, i, j);
  }

  /** Run k, as its script has it, would deliver if there were nothing to carry. */
  predicate CanDeliverAt(h: seq<RunScript>, country: string, k: nat)
    requires k < |h|
  {
    h[k].country == country && Delivers(h[k], false)
  }

  /**
   * A streak that begins unalerted and loses nothing delivers exactly once if some run of it completes
   * degraded and gets its alert out, and otherwise not at all; and this is how a streak that loses
   * something can deliver once as well: by ending unalerted after a single loss.
   */
  lemma StreakDeliversOnceExactly(h: seq<RunScript>, country: string, i: nat, j: nat)
    requires i <= j <= |h| && OneStreak(h, country, i, j) && !AlertedAt(h, country, i)
    ensures DeliveredIn(h, country, i, j) == 1 <==>
              (LossesIn(h, country, i, j) == 0 && exists k :: i <= k < j && CanDeliverAt(h, country, k))
              || (LossesIn(h, country, i, j) == 1 && !AlertedAt(h, country, j))
  {
    StreakAccount(h, country, i, j);
    if LossesIn(h, country, i, j) == 0 {
      LosslessStreak(h, country, i, j);
    }
  }

  lemma LosslessStreak(h: seq<RunScript>, country: string, i: nat, j: nat)
    requires i <= j <= |h| && OneStreak(h, country, i, j) && !AlertedAt(h, country, i)
    requires LossesIn(h, country, i, j) == 0
    ensures DeliveredIn(h, country, i, j) == OneIf(exists k :: i <= k < j && CanDeliverAt(h, country, k))
  {
    StreakAccount(h, country, i, j);
    forall k | i <= k < j && CanDeliverAt(h, country, k) ensures AlertedAt(h, country, j) {
      DeliveryKeptAlerted(h, country, i, k, j);
    }
    if DeliveredIn(h, country, i, j) > 0 {
      var k := DeliveryInStreak(h, country, i, j);
      DeliveredMeansCould(h, country, k);
    }
  }

  lemma DeliveryKeptAlerted(h: seq<RunScript>, country: string, i: nat, k: nat, j: nat)
    requires i <= k < j <= |h| && OneStreak(h, country, i, j) && LossesIn(h, country, i, j) == 0
    requires CanDeliverAt(h, country, k)
    ensures AlertedAt(h, country, j)
  {
    SumAbove(Losses(h, country), i, k, j);
    SumZeroTail(Losses(h, country), i, k + 1, j);
    assert StreakGoesOnAt(h, country, k);
    LedgerNext(h, k);
    RunAccount(LedgerBefore(h, k), h[k]);
    assert AlertedAt(h, country, k + 1);
    StreakAccount(h, country, k + 1, j);
  }

  lemma DeliveredMeansCould(h: seq<RunScript>, country: string, k: nat)
    requires k < |h| && StreakGoesOnAt(h, country, k) && DeliveredAt(h, country, k) > 0
    ensures CanDeliverAt(h, country, k)
  {
    RunAccount(LedgerBefore(h, k), h[k]);
  }

  /** Some run of the streak made the delivery. */
  lemma {:induction false} DeliveryInStreak(h: seq<RunScript>, country: string, i: nat, j: nat) returns (k: nat)
    requires i <= j <= |h| && OneStreak(h, country, i, j) && DeliveredIn(h, country, i, j) > 0
    ensures i <= k < j && DeliveredAt(h, country, k) > 0
  {
    if DeliveredAt(h, country, j - 1) > 0 {
      return j - 1;
    }
    k := DeliveryInStreak(h, country, i, j - 1);
  }

  /** Run k of the history completes degraded for the country. */
  predicate DegradedAt(h: seq<RunScript>, country: string, k: nat)
    requires k < |h|
  {
    h[k].country == country && CompletesDegraded(h[k])
  }

  /**
   * A fault-free streak that starts unalerted and has one degraded run whose send works delivers
   * exactly once, however many sends fail before and however many degraded runs follow.
   */
  lemma FaultFreeStreakDeliversOnce(h: seq<RunScript>, country: string, i: nat, k: nat, j: nat)
    requires i <= k < j <= |h| && OneStreak(h, country, i, j) && FaultsIn(h, country, i, j) == 0
    requires !AlertedAt(h, country, i) && DegradedAt(h, country, k) && h[k].sendOk
    ensures DeliveredIn(h, country, i, j) == 1
  {
    LossesAreFaults(h, country, i, j);
    SumAbove(Faults(h, country), i, k, j);
    FaultFreeRunSends(LedgerBefore(h, k), h[k]);
    assert CanDeliverAt(h, country, k);
    StreakDeliversOnceExactly(h, country, i, j);
  }

  lemma FaultFreeRunSends(runs: Runs, s: RunScript)
    requires PlayRun(runs, s).faults == 0 && CompletesDegraded(s) && s.sendOk
    ensures Delivers(s, false)
  {
    DegradedRow(runs, s);
    PreviousCompletedInRange(runs, s.country, |runs| + 1);
  }

  lemma {:induction false} SumAbove(f: nat -> nat, i: nat, k: nat, j: nat)
    requires i <= k < j
    ensures f(k) <= Sum(f, i, j)
  {
    if k < j - 1 {
      SumAbove(f, i, k, j - 1);
    }
  }

  lemma {:induction false} SumZeroTail(f: nat -> nat, i: nat, k: nat, j: nat)
    requires i <= k <= j && Sum(f, i, j) == 0
    ensures Sum(f, k, j) == 0
  {
    if k < j {
      SumZeroTail(f, i, k, j - 1);
    }
  }

  // ---------------------------------------------------------------- alert_sent_at

  /** The delivery went out for a degraded run at or before row i, of the same country and the same streak. */
  predicate DeliveredInStreak(runs: Runs, d: Delivery, i: nat)
    requires i < |runs|
  {
    && 1 <= d.run <= i + 1
    && runs[d.run - 1].country == runs[i].country && runs[d.run - 1].status == Degraded
    && forall k :: d.run - 1 <= k <= i && runs[k].country == runs[i].country && runs[k].status != Running ==>
         runs[k].status == Degraded
  }

  /** The recorded time of row i, if any, is that of a delivery in its streak. */
  ghost predicate TimeIsDelivery(log: Log, i: nat)
    requires i < |log.runs|
  {
    log.runs[i].alertSentAt.Some? ==>
      exists d :: d in log.deliveries && d.at == log.runs[i].alertSentAt.value && DeliveredInStreak(log.runs, d, i)
  }

  /** Where the time of a new row comes from: this run's own delivery, or the row id it carries on from. */
  lemma NewRowTime(runs: Runs, s: RunScript) returns (id: nat)
    requires var after := PlayRun(runs, s).runs; |after| > |runs| && after[|runs|].alertSentAt.Some?
    ensures var n := PlayRun(runs, s);
            var r := n.runs[|runs|];
            && r.status == Degraded && r.country == s.country
            && (n.delivered == r.alertSentAt || CarriesFrom(runs, id, r))
  {
    HonestOutcome(runs, s.country, s.counters, s.runErr, s.create, s.complete);
    PlayRunAppends(runs, s);
    var after := RecordRun(runs, s.country, s.counters, s.runErr, s.create, s.complete).0;
    PreviousCompletedPrefix(runs, after, s.country, |runs| + 1);
    PreviousCompletedIsLatest(runs, s.country, |runs| + 1);
    var found := PreviousCompleted(runs, s.country, |runs| + 1);
    id := if found.Some? then found.value else 0;
  }

  /** Row id is the latest completed row of r's country, degraded, with r's recorded time. */
  predicate CarriesFrom(runs: Runs, id: nat, r: Run) {
    && 1 <= id <= |runs| && runs[id - 1].country == r.country && runs[id - 1].status == Degraded
    && runs[id - 1].alertSentAt == r.alertSentAt
    && forall k :: id <= k < |runs| ==> runs[k].country != r.country || runs[k].status == Running
  }

  /** A delivery stays in the streak of an old row, and reaches a new degraded row that follows on. */
  lemma StreakExtends(runs: Runs, r: Run, d: Delivery, i: nat)
    requires i < |runs| && DeliveredInStreak(runs, d, i)
    ensures DeliveredInStreak(runs + [r], d, i)
    ensures r.status == Degraded && r.country == runs[i].country
            && (forall k :: i < k < |runs| ==> runs[k].country != r.country || runs[k].status == Running)
            ==> DeliveredInStreak(runs + [r], d, |runs|)
  {
  }

  ghost predicate TimesAreDeliveries(log: Log) { forall i :: 0 <= i < |log.runs| ==> TimeIsDelivery(log, i) }

  /** Every alert_sent_at is the recorded time of a delivery for a degraded run of the same streak. */
  lemma {:induction false} AlertTimesAreDeliveries(h: seq<RunScript>)
    ensures TimesAreDeliveries(Play(h))
  {
    if h != [] {
      AlertTimesAreDeliveries(h[..|h| - 1]);
      RecordKeepsTimes(Play(h[..|h| - 1]), h[|h| - 1]);
    }
  }

  lemma RecordKeepsTimes(log: Log, s: RunScript)
    requires TimesAreDeliveries(log)
    ensures TimesAreDeliveries(Record(log, s))
  {
    PlayRunAppends(log.runs, s);
    forall i | 0 <= i < |Record(log, s).runs| ensures TimeIsDelivery(Record(log, s), i) {
      if i < |log.runs| {
        OldRowTime(log, s, i);
      } else {
        NewRowTimeIsDelivery(log, s);
      }
    }
  }

  lemma NewRowTimeIsDelivery(log: Log, s: RunScript)
    requires TimesAreDeliveries(log) && |Record(log, s).runs| == |log.runs| + 1
    ensures TimeIsDelivery(Record(log, s), |log.runs|)
  {
    var n := |log.runs|;
    var after := Record(log, s);
    if after.runs[n].alertSentAt.Some? {
      PlayRunAppends(log.runs, s);
      var id := NewRowTime(log.runs, s);
      if PlayRun(log.runs, s).delivered == after.runs[n].alertSentAt {
        assert Delivery(n + 1, after.runs[n].alertSentAt.value) in after.deliveries;
      } else {
        CarriedTime(log, s, id);
      }
    }
  }

  lemma OldRowTime(log: Log, s: RunScript, i: nat)
    requires i < |log.runs| && TimeIsDelivery(log, i)
    ensures |Record(log, s).runs| >= |log.runs| && TimeIsDelivery(Record(log, s), i)
  {
    PlayRunAppends(log.runs, s);
    var after := Record(log, s);
    if after.runs != log.runs {
      var r := after.runs[|log.runs|];
      assert after.runs == log.runs + [r];
      if log.runs[i].alertSentAt.Some? {
        var d :| d in log.deliveries && d.at == log.runs[i].alertSentAt.value && DeliveredInStreak(log.runs, d, i);
        StreakExtends(log.runs, r, d, i);
      }
    }
  }

  lemma CarriedTime(log: Log, s: RunScript, id: nat)
    requires var runs := Record(log, s).runs;
             && |runs| == |log.runs| + 1 && runs[..|log.runs|] == log.runs
             && runs[|log.runs|].alertSentAt.Some? && runs[|log.runs|].status == Degraded
             && CarriesFrom(log.runs, id, runs[|log.runs|])
    requires TimeIsDelivery(log, id - 1)
    ensures TimeIsDelivery(Record(log, s), |log.runs|)
  {
    var r := Record(log, s).runs[|log.runs|];
    assert Record(log, s).runs == log.runs + [r];
    var d :| d in log.deliveries && d.at == log.runs[id - 1].alertSentAt.value && DeliveredInStreak(log.runs, d, id - 1);
    StreakExtends(log.runs, r, d, id - 1);
  }

  // ---------------------------------------------------------------- disabled alerting is a fault

  function DegradedRun(country: string, enabled: bool, at: int): RunScript {
    RunScript(country, NO_COUNTS.(upstreamFailed := 1), None, Applied, Applied, enabled, true, true, at, Applied, NoCrash)
  }

  /**
   * Switching alerting off for one run in the middle of a streak makes the streak deliver twice
   * although no send, lookup or mark ever failed: the disabled run returns before the carry step.
   */
  lemma DisabledRunDeliversTwice(country: string)
    ensures var h := [DegradedRun(country, true, 1), DegradedRun(country, false, 2), DegradedRun(country, true, 3)];
            OneStreak(h, country, 0, 3) && DeliveredIn(h, country, 0, 3) == 2 && FaultsIn(h, country, 0, 3) == 1
  {
    var h := [DegradedRun(country, true, 1), DegradedRun(country, false, 2), DegradedRun(country, true, 3)];
    var message := Some([PolygonsNotAnswered(1)]);
    var plain := Run(country, Degraded, 0, 0, message, None);
    assert h[..0] == [];
    assert LedgerBefore(h, 0) == [];
    assert PlayRun([], h[0]) == Noted([plain.(alertSentAt := Some(1))], Some(1), 0);
    LedgerNext(h, 0);
    var one := LedgerBefore(h, 1);
    assert PlayRun(one, h[1]) == Noted(one + [plain], None, 1);
    LedgerNext(h, 1);
    var two := LedgerBefore(h, 2);
    assert PlayRun(two, h[2]).delivered == Some(3) && PlayRun(two, h[2]).faults == 0;
    assert StreakGoesOnAt(h, country, 0) && StreakGoesOnAt(h, country, 1) && StreakGoesOnAt(h, country, 2);
    var d, f := Deliveries(h, country), Faults(h, country);
    assert d(0) == 1 && d(1) == 0 && d(2) == 1;
    assert f(0) == 0 && f(1) == 1 && f(2) == 0;
  }

  // ---------------------------------------------------------------- the scheduler's step

  /** degradedAlertAction and the branch it leads to, on the ledger. */
  method NotifyIfDegraded(ledger: IngestionRuns, id: nat, s: RunScript) returns (delivered: Option<int>)
    requires 1 <= id <= |ledger.runs|
    modifies ledger
    ensures ledger.runs == Notify(old(ledger.runs), id, s).runs
    ensures delivered == Notify(old(ledger.runs), id, s).delivered
  {
    if !s.enabled {
      return None;
    }
    PreviousCompletedInRange(ledger.runs, s.country, id);
    var prev: Option<Run> := None;
    if s.lookupOk {
      var found := PreviousCompleted(ledger.runs, s.country, id);
      if found.Some? {
        prev := Some(ledger.runs[found.value - 1]);
      }
    }
    match ActionFor(s.counters, prev, s.lookupOk) {
      case NoAlert =>
        return None;
      case Carry =>
        if s.crash == BeforeSend || s.crash == BeforeMark {
          return None;
        }
        var _ := ledger.MarkIngestionRunAlerted(id, prev.value.alertSentAt.value, s.mark);
        return None;
      case Send =>
        if s.crash == BeforeSend || !s.sendOk {
          return None;
        }
        delivered := Some(s.sentAt);
        if s.crash == BeforeMark {
          return;
        }
        var _ := ledger.MarkIngestionRunAlerted(id, s.sentAt, s.mark);
    }
  }
}
