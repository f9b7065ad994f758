/**
 * The alert protocol under the lease: several replicas that write the run ledger statement by
 * statement while they hold the scheduler lock (scheduler.go, eonet.go and queries.go together).
 */
module LeasedRuns {
  import opened Wrappers
  import opened Ledger
  import opened IngestRuns
  import opened DegradedAlerts
  import Lease = SchedulerLease

  // ---------------------------------------------------------------- one run, statement by statement

  /** Where a run is: what its next statement or email needs to know. */
  datatype Stage =
    | Started(row: Option<nat>)
    | Recorded(id: nat)
    | LookedUp(id: nat, prev: Option<Run>)
    | Marking(id: nat, at: int)

  /** The crash point of a process that dies at this stage. */
  function PointOf(stage: Stage): Crash {
    match stage
    case Started(_) => BeforeComplete
    case Recorded(_) => BeforeNotify
    case LookedUp(_, _) => BeforeSend
    case Marking(_, _) => BeforeMark
  }

  /** The row is created. */
  function Begun(log: Log, s: RunScript): (Log, Stage) {
    var runs := Created(log.runs, s.country, s.create);
    (Log(runs, log.deliveries), Started(if s.create.Applied? then Some(|runs|) else None))
  }

  /** What the previous-run lookup gives this run. */
  function Previous(runs: Runs, s: RunScript, id: nat): Option<Run> {
    var found := PreviousCompleted(runs, s.country, id);
    PreviousCompletedInRange(runs, s.country, id);
    if s.lookupOk && found.Some? then Some(runs[found.value - 1]) else None
  }

  /** The next statement or email of a run; no stage follows the last one. */
  function Advanced(log: Log, s: RunScript, stage: Stage): (Log, Option<Stage>) {
    match stage
    case Started(id) =>
      var (runs, report) := Finish(log.runs, id, s.counters, s.runErr, s.complete);
      (Log(runs, log.deliveries),
       if report.err.Some? || report.run.None? then None else Some(Recorded(report.run.value.id)))
    case Recorded(id) =>
      (log, if s.enabled then Some(LookedUp(id, Previous(log.runs, s, id))) else None)
    case LookedUp(id, prev) =>
      (match ActionFor(s.counters, prev, s.lookupOk)
       case NoAlert => (log, None)
       case Carry => (log, Some(Marking(id, prev.value.alertSentAt.value)))
       case Send =>
         if !s.sendOk then (log, None)
         else (Log(log.runs, log.deliveries + [Delivery(id, s.sentAt)]), Some(Marking(id, s.sentAt))))
    case Marking(id, at) => (Log(Marked(log.runs, id, at, s.mark), log.deliveries), None)
  }

  /** What the stage remembers is what the run's own ledger said. */
  predicate Remembers(runs: Runs, s: RunScript, stage: Stage) {
    var (after, report) := RecordRun(runs, s.country, s.counters, s.runErr, s.create, s.complete);
    match stage
    case Started(id) => id == if s.create.Applied? then Some(|runs| + 1) else None
    case Recorded(id) => report.err.None? && report.run.Some? && id == report.run.value.id == |after|
    case LookedUp(id, prev) =>
      report.err.None? && report.run.Some? && id == report.run.value.id == |after| && s.enabled && prev == Previous(after, s, id)
    case Marking(id, at) =>
      && report.err.None? && report.run.Some? && id == report.run.value.id == |after| && s.enabled
      && var prev := Previous(after, s, id);
         match ActionFor(s.counters, prev, s.lookupOk)
         case NoAlert => false
         case Carry => at == prev.value.alertSentAt.value
         case Send => s.sendOk && at == s.sentAt
  }

  /** The log is that of a run on base that died at this stage. */
  predicate Fits(base: Log, s: RunScript, stage: Stage, log: Log) {
    s.crash == NoCrash && Remembers(base.runs, s, stage) && log == Record(base, s.(crash := PointOf(stage)))
  }

  lemma BegunFits(base: Log, s: RunScript)
    requires s.crash == NoCrash
    ensures Fits(base, s, Begun(base, s).1, Begun(base, s).0)
  {
  }

  lemma CompletedFits(base: Log, s: RunScript, id: Option<nat>, log: Log)
    requires Fits(base, s, Started(id), log)
    ensures var (after, next) := Advanced(log, s, Started(id));
            if next.None? then after == Record(base, s) else Fits(base, s, next.value, after)
  {
    HonestOutcome(base.runs, s.country, s.counters, s.runErr, s.create, s.complete);
    NoSilentFailure(base.runs, s.country, s.counters, s.runErr, s.create, s.complete);
  }

  lemma LookedUpFits(base: Log, s: RunScript, id: nat, log: Log)
    requires Fits(base, s, Recorded(id), log)
    ensures var (after, next) := Advanced(log, s, Recorded(id));
            if next.None? then after == Record(base, s) else Fits(base, s, next.value, after)
  {
  }

  lemma SentFits(base: Log, s: RunScript, id: nat, prev: Option<Run>, log: Log)
    requires Fits(base, s, LookedUp(id, prev), log)
    ensures var (after, next) := Advanced(log, s, LookedUp(id, prev));
            if next.None? then after == Record(base, s) else Fits(base, s, next.value, after)
  {
  }

  lemma MarkedFits(base: Log, s: RunScript, id: nat, at: int, log: Log)
    requires Fits(base, s, Marking(id, at), log)
    ensures Advanced(log, s, Marking(id, at)) == (Record(base, s), None)
  {
  }

  /** Undisturbed, a run goes on to what the run model says, or to one more stage of it. */
  lemma AdvancedFits(base: Log, s: RunScript, stage: Stage, log: Log)
    requires Fits(base, s, stage, log)
    ensures var (after, next) := Advanced(log, s, stage);
            if next.None? then after == Record(base, s) else Fits(base, s, next.value, after)
  {
    match stage
    case Started(id) => CompletedFits(base, s, id, log);
    case Recorded(id) => LookedUpFits(base, s, id, log);
    case LookedUp(id, prev) => SentFits(base, s, id, prev, log);
    case Marking(id, at) => MarkedFits(base, s, id, at, log);
  }

  /** How many statements or emails may still follow this one. */
  function StepsAfter(stage: Stage): nat {
    match stage case Started(_) => 3 case Recorded(_) => 2 case LookedUp(_, _) => 1 case Marking(_, _) => 0
  }

  /** Each stage is passed at most once: a run that is let go on ends after four statements at most. */
  lemma RunEnds(log: Log, s: RunScript, stage: Stage)
    ensures var next := Advanced(log, s, stage).1; next.Some? ==> StepsAfter(next.value) < StepsAfter(stage)
  {
  }

  // ---------------------------------------------------------------- replicas under the lease

  datatype Active = Active(s: RunScript, stage: Stage)

  /** done is the history of runs that ended or died; active holds the runs under way, by replica. */
  datatype State = State(lease: Lease.State, log: Log, done: seq<RunScript>, active: map<nat, Active>)

  datatype Step =
    | OnLease(step: Lease.Step)
    | Begin(replica: nat, s: RunScript)
    | Advance(replica: nat)

  /** A replica begins runs and advances them only while it is inside, and leaves only between runs. */
  predicate Enabled(c: State, step: Step, fleet: Lease.Fleet) {
    match step
    case OnLease(l) => Lease.Enabled(c.lease, l, fleet) && (l.Finish? ==> l.replica !in c.active)
    case Begin(r, s) => Lease.PhaseOf(c.lease, r).Inside? && r !in c.active && s.crash == NoCrash
    case Advance(r) => Lease.PhaseOf(c.lease, r).Inside? && r in c.active
  }

  function Apply(c: State, step: Step, fleet: Lease.Fleet): State
    requires Enabled(c, step, fleet)
  {
    match step
    case OnLease(l) =>
      var lease := Lease.Apply(c.lease, l, fleet);
      if l.CrashOf? && l.replica in c.active then
        var a := c.active[l.replica];
        State(lease, c.log, c.done + [a.s.(crash := PointOf(a.stage))], c.active - {l.replica})
      else c.(lease := lease)
    case Begin(r, s) =>
      var (log, stage) := Begun(c.log, s);
      c.(log := log, active := c.active[r := Active(s, stage)])
    case Advance(r) =>
      var a := c.active[r];
      var (log, next) := Advanced(c.log, a.s, a.stage);
      if next.None? then State(c.lease, log, c.done + [a.s], c.active - {r})
      else c.(log := log, active := c.active[r := Active(a.s, next.value)])
  }

  predicate Initial(c: State) { Lease.Initial(c.lease) && c.log == Log([], []) && c.done == [] && c.active == map[] }

  /** A run of the whole system, every run on time: any replicas, any order of steps. */
  predicate Behaviour(states: seq<State>, steps: seq<Step>, fleet: Lease.Fleet) {
    && |states| == |steps| + 1 && Initial(states[0])
    && (forall k :: 0 <= k < |states| ==> Lease.Timely(states[k].lease))
    && forall k :: 0 <= k < |steps| ==> Enabled(states[k], steps[k], fleet) && states[k + 1] == Apply(states[k], steps[k], fleet)
  }

  /** The steps on the lease among these. */
  function LeaseSteps(steps: seq<Step>): seq<Lease.Step> {
    if steps == [] then []
    else LeaseSteps(steps[..|steps| - 1]) + LeasePart(steps[|steps| - 1])
  }

  lemma {:induction false} AfterPrefix(s: Lease.State, steps: seq<Lease.Step>, more: seq<Lease.Step>, fleet: Lease.Fleet, k: nat)
    requires k <= |steps|
    ensures Lease.After(s, steps + more, fleet, k) == Lease.After(s, steps, fleet, k)
  {
    if k > 0 {
      AfterPrefix(s, steps, more, fleet, k - 1);
    }
  }

  lemma ExecutionNext(s: Lease.State, steps: seq<Lease.Step>, step: Lease.Step, fleet: Lease.Fleet)
    requires Lease.Execution(s, steps, fleet) && Lease.Enabled(Lease.After(s, steps, fleet, |steps|), step, fleet)
    ensures Lease.Execution(s, steps + [step], fleet)
    ensures Lease.After(s, steps + [step], fleet, |steps| + 1) == Lease.Apply(Lease.After(s, steps, fleet, |steps|), step, fleet)
  {
    forall k: nat | k <= |steps| ensures Lease.After(s, steps + [step], fleet, k) == Lease.After(s, steps, fleet, k) {
      AfterPrefix(s, steps, [step], fleet, k);
    }
  }

  function LeasePart(step: Step): seq<Lease.Step> { if step.OnLease? then [step.step] else [] }

  lemma LeaseMoves(start: Lease.State, l: seq<Lease.Step>, c: State, step: Step, fleet: Lease.Fleet)
    requires Enabled(c, step, fleet) && Lease.Execution(start, l, fleet) && c.lease == Lease.After(start, l, fleet, |l|)
    ensures var more := l + LeasePart(step);
            Lease.Execution(start, more, fleet) && Apply(c, step, fleet).lease == Lease.After(start, more, fleet, |more|)
  {
    if step.OnLease? {
      ExecutionNext(start, l, step.step, fleet);
    } else {
      assert l + LeasePart(step) == l;
    }
  }

  lemma LeaseStepsNext(steps: seq<Step>, k: nat)
    requires 0 < k <= |steps|
    ensures LeaseSteps(steps[..k]) == LeaseSteps(steps[..k - 1]) + LeasePart(steps[k - 1])
  {
    assert steps[..k][..k - 1] == steps[..k - 1];
  }

  /** Under the runs, the lease is an execution of the lease, so what is proved of those holds of it. */
  lemma {:induction false} LeaseRunsOn(states: seq<State>, steps: seq<Step>, fleet: Lease.Fleet, k: nat)
    requires Behaviour(states, steps, fleet) && k < |states|
    ensures var l := LeaseSteps(steps[..k]);
            Lease.Execution(states[0].lease, l, fleet) && states[k].lease == Lease.After(states[0].lease, l, fleet, |l|)
  {
    if k > 0 {
      LeaseRunsOn(states, steps, fleet, k - 1);
      LeaseStepsNext(steps, k);
      LeaseMoves(states[0].lease, LeaseSteps(steps[..k - 1]), states[k - 1], steps[k - 1], fleet);
    }
  }

  /** Only the replica inside has a run under way, and the log is that of the history and this run. */
  predicate Serial(c: State, fleet: Lease.Fleet) {
    && Lease.InsideOwnsRow(c.lease, fleet)
    && (forall r :: r in c.active ==> Lease.PhaseOf(c.lease, r).Inside?)
    && (c.active == map[] ==> c.log == Play(c.done))
    && forall r :: r in c.active ==> Fits(Play(c.done), c.active[r].s, c.active[r].stage, c.log)
  }

  lemma OnlyActive(c: State, fleet: Lease.Fleet, r: nat)
    requires Serial(c, fleet) && Lease.DistinctHolders(fleet) && Lease.PhaseOf(c.lease, r).Inside?
    ensures forall q :: q in c.active ==> q == r
    ensures r !in c.active ==> c.active == map[]
    ensures c.active - {r} == map[]
  {
    forall q | q in c.active ensures q == r {
      assert Lease.PhaseOf(c.lease, q).Inside?;
    }
  }

  lemma PlayNext(h: seq<RunScript>, s: RunScript)
    ensures Play(h + [s]) == Record(Play(h), s)
  {
    assert (h + [s])[..|h|] == h;
  }

  lemma LeaseStepIsSerial(c: State, l: Lease.Step, fleet: Lease.Fleet)
    requires Serial(c, fleet) && Lease.Timely(c.lease) && Lease.DistinctHolders(fleet) && Enabled(c, OnLease(l), fleet)
    ensures Serial(Apply(c, OnLease(l), fleet), fleet)
  {
    Lease.StepKeepsOwner(c.lease, l, fleet);
    if l.CrashOf? && l.replica in c.active {
      OnlyActive(c, fleet, l.replica);
      PlayNext(c.done, c.active[l.replica].s.(crash := PointOf(c.active[l.replica].stage)));
    }
  }

  lemma AdvanceIsSerial(c: State, r: nat, fleet: Lease.Fleet)
    requires Serial(c, fleet) && Lease.DistinctHolders(fleet) && Enabled(c, Advance(r), fleet)
    ensures Serial(Apply(c, Advance(r), fleet), fleet)
  {
    OnlyActive(c, fleet, r);
    AdvancedFits(Play(c.done), c.active[r].s, c.active[r].stage, c.log);
    PlayNext(c.done, c.active[r].s);
  }

  lemma StepIsSerial(c: State, step: Step, fleet: Lease.Fleet)
    requires Serial(c, fleet) && Lease.Timely(c.lease) && Lease.DistinctHolders(fleet) && Enabled(c, step, fleet)
    ensures Serial(Apply(c, step, fleet), fleet)
  {
    match step
    case OnLease(l) => LeaseStepIsSerial(c, l, fleet);
    case Begin(r, s) =>
      OnlyActive(c, fleet, r);
      BegunFits(Play(c.done), s);
    case Advance(r) => AdvanceIsSerial(c, r, fleet);
  }

  lemma {:induction false} SerialThroughout(states: seq<State>, steps: seq<Step>, fleet: Lease.Fleet, k: nat)
    requires Behaviour(states, steps, fleet) && Lease.DistinctHolders(fleet) && k < |states|
    ensures Serial(states[k], fleet)
  {
    if k > 0 {
      SerialThroughout(states, steps, fleet, k - 1);
      StepIsSerial(states[k - 1], steps[k - 1], fleet);
    }
  }

  /**
   * In every timely execution of replicas with distinct holder strings, at every moment: ledger and
   * deliveries are those of a history of whole runs, the one under way counting as one that dies
   * where it is. So everything proved of histories holds of the replicas.
   */
  lemma LedgerIsSerial(states: seq<State>, steps: seq<Step>, fleet: Lease.Fleet, k: nat) returns (h: seq<RunScript>)
    requires Behaviour(states, steps, fleet) && Lease.DistinctHolders(fleet) && k < |states|
    ensures states[k].log == Play(h)
    ensures states[k].active == map[] ==> h == states[k].done
  {
    SerialThroughout(states, steps, fleet, k);
    var c := states[k];
    h := c.done;
    if c.active != map[] {
      var r :| r in c.active;
      var last := c.active[r].s.(crash := PointOf(c.active[r].stage));
      PlayNext(c.done, last);
      h := c.done + [last];
    }
  }
}
