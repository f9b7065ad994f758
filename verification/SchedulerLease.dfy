/**
 * The scheduler's lease lock: the scheduler_locks statements of api/internal/database/queries.go and
 * runAllCountriesWithLock of api/internal/ingestor/scheduler.go, with any number of replicas that
 * may crash, run late, or lose a statement. A replica names itself by its host and process id, so two
 * replicas may have one holder string.
 */
module SchedulerLease {
  import opened Wrappers
  import Decimal
  import opened EventStore

  const SCHEDULER_LOCK_TTL_MS: nat := 300_000
  const SCHEDULER_LOCK_NAME := "ingestion-scheduler"

  datatype LockRow = LockRow(holder: string, lockedUntil: int)

  type Locks = map<string, LockRow>

  predicate Acquirable(locks: Locks, name: string, holder: string, now: int) {
    name !in locks || locks[name].lockedUntil <= now || locks[name].holder == holder
  }

  function Acquired(locks: Locks, name: string, holder: string, until: int, now: int, ack: Ack): Locks {
    if ack.Refused? || !Acquirable(locks, name, holder, now) then locks
    else locks[name := LockRow(holder, until)]
  }

  function Released(locks: Locks, name: string, holder: string, ack: Ack): Locks {
    if ack.Refused? || name !in locks || locks[name].holder != holder then locks else locks - {name}
  }

  class SchedulerLocks {
    var locks: Locks

    constructor ()
      ensures locks == map[]
    {
      locks := map[];
    }

    /** now is the database's clock; until was computed from the replica's. */
    method TryAcquireSchedulerLock(name: string, holder: string, until: int, now: int, ack: Ack) returns (acquired: bool)
      modifies this
      ensures locks == Acquired(old(locks), name, holder, until, now, ack)
      ensures acquired == (ack.Applied? && Acquirable(old(locks), name, holder, now))
      ensures acquired ==> name in locks && locks[name] == LockRow(holder, until)
    {
      var free := name !in locks || locks[name].lockedUntil <= now || locks[name].holder == holder;
      if free && !ack.Refused? {
        locks := locks[name := LockRow(holder, until)];
      }
      acquired := free && ack.Applied?;
    }

    method ReleaseSchedulerLock(name: string, holder: string, ack: Ack)
      modifies this
      ensures locks == Released(old(locks), name, holder, ack)
      ensures forall k :: k in old(locks) && !(k == name && old(locks)[k].holder == holder) ==>
                k in locks && locks[k] == old(locks)[k]
    {
      if !ack.Refused? && name in locks && locks[name].holder == holder {
        locks := locks - {name};
      }
    }
  }

  // ---------------------------------------------------------------- holder strings

  function HostName(host: Option<string>): string {
    if host.None? || host.value == "" then "unknown-host" else host.value
  }

  /** schedulerLockHolder: the host, if it can be told, and the process id. */
  function SchedulerLockHolder(host: Option<string>, pid: nat): string { HostName(host) + ":" + Decimal.Show(pid) }

  /** A host that cannot be told from one called unknown-host: unreadable, empty, or called that. */
  predicate Nameless(host: Option<string>) { host in {None, Some(""), Some("unknown-host")} }

  /** Two processes share a holder string exactly when they share the process id, and the host or the lack of a name. */
  lemma SameHolderExactly(host: Option<string>, pid: nat, otherHost: Option<string>, otherPid: nat)
    ensures SchedulerLockHolder(host, pid) == SchedulerLockHolder(otherHost, otherPid)
            <==> pid == otherPid && (host == otherHost || (Nameless(host) && Nameless(otherHost)))
  {
    if SchedulerLockHolder(host, pid) == SchedulerLockHolder(otherHost, otherPid) {
      Decimal.NumberSuffixUnique(HostName(host), HostName(otherHost), ':', pid, otherPid);
    }
  }

  // ---------------------------------------------------------------- replicas

  /** Replicas 0, ..., size-1 with their holder strings; their clocks are ahead of the database's by at most maxSkew. */
  datatype Fleet = Fleet(size: nat, holder: nat -> string, maxSkew: nat)

  predicate DistinctHolders(fleet: Fleet) {
    forall q: nat, r: nat :: q < fleet.size && r < fleet.size && q != r ==> fleet.holder(q) != fleet.holder(r)
  }

  /** Idle also stands for a replica that is not running, or was restarted after a crash. */
  datatype Phase = Idle | Inside(until: int) | Leaving

  /** lastWrite is the database time at which the lock row was last written. */
  datatype State = State(locks: Locks, now: int, phases: map<nat, Phase>, lastWrite: int)

  datatype Step =
    | Tick(to: int)
    | Acquire(replica: nat, localNow: int, ack: Ack)
    | Finish(replica: nat)
    | Release(replica: nat, ack: Ack)
    | CrashOf(replica: nat)

  function PhaseOf(s: State, replica: nat): Phase {
    if replica in s.phases then s.phases[replica] else Idle
  }

  predicate Enabled(s: State, step: Step, fleet: Fleet) {
    match step
    case Tick(to) => s.now <= to
    case Acquire(r, localNow, _) => r < fleet.size && PhaseOf(s, r) == Idle && localNow <= s.now + fleet.maxSkew
    case Finish(r) => r < fleet.size && PhaseOf(s, r).Inside?
    case Release(r, _) => r < fleet.size && PhaseOf(s, r) == Leaving
    case CrashOf(r) => r < fleet.size
  }

  function Apply(s: State, step: Step, fleet: Fleet): State {
    match step
    case Tick(to) => s.(now := to)
    case Acquire(r, localNow, ack) =>
      var until := localNow + SCHEDULER_LOCK_TTL_MS;
      var free := Acquirable(s.locks, SCHEDULER_LOCK_NAME, fleet.holder(r), s.now);
      s.(locks := Acquired(s.locks, SCHEDULER_LOCK_NAME, fleet.holder(r), until, s.now, ack),
         lastWrite := if free && !ack.Refused? then s.now else s.lastWrite,
         phases := if free && ack.Applied? then s.phases[r := Inside(until)] else s.phases)
    case Finish(r) => s.(phases := s.phases[r := Leaving])
    case Release(r, ack) =>
      s.(locks := Released(s.locks, SCHEDULER_LOCK_NAME, fleet.holder(r), ack), phases := s.phases[r := Idle])
    case CrashOf(r) => s.(phases := s.phases[r := Idle])
  }

  /** Nobody else's row stands in the way. */
  predicate Free(s: State, holder: string) {
    SCHEDULER_LOCK_NAME !in s.locks
    || s.locks[SCHEDULER_LOCK_NAME].lockedUntil <= s.now || s.locks[SCHEDULER_LOCK_NAME].holder == holder
  }

  /** What a replica may do next is a matter of where it is; it may crash anywhere, and time may pass. */
  lemma NextSteps(s: State, fleet: Fleet, r: nat, localNow: int, ack: Ack, to: int)
    requires r < fleet.size
    ensures Enabled(s, Acquire(r, localNow, ack), fleet) <==> PhaseOf(s, r) == Idle && localNow - s.now <= fleet.maxSkew
    ensures Enabled(s, Finish(r), fleet) <==> PhaseOf(s, r) != Idle && PhaseOf(s, r) != Leaving
    ensures Enabled(s, Release(r, ack), fleet) <==> PhaseOf(s, r) == Leaving
    ensures Enabled(s, CrashOf(r), fleet) && (Enabled(s, Tick(to), fleet) <==> to >= s.now)
  {
  }

  /** A replica gets in by an acknowledged attempt on a free row, for five minutes by its clock; it leaves, then is idle again. */
  lemma PhaseMoves(s: State, fleet: Fleet, r: nat, localNow: int, ack: Ack)
    ensures PhaseOf(Apply(s, Acquire(r, localNow, ack), fleet), r)
         == if Free(s, fleet.holder(r)) && ack.Applied? then Inside(localNow + 300_000) else PhaseOf(s, r)
    ensures PhaseOf(Apply(s, Finish(r), fleet), r) == Leaving
    ensures PhaseOf(Apply(s, Release(r, ack), fleet), r) == PhaseOf(Apply(s, CrashOf(r), fleet), r) == Idle
    ensures forall q :: q != r ==>
              && PhaseOf(Apply(s, Acquire(r, localNow, ack), fleet), q) == PhaseOf(s, q)
              && PhaseOf(Apply(s, Finish(r), fleet), q) == PhaseOf(Apply(s, Release(r, ack), fleet), q) == PhaseOf(s, q)
              && PhaseOf(Apply(s, CrashOf(r), fleet), q) == PhaseOf(s, q)
  {
  }

  /** The row is written, and deleted, even when the replica is not told; a crash and the end of a run leave it. */
  lemma RowMoves(s: State, fleet: Fleet, r: nat, localNow: int, ack: Ack)
    ensures var t := Apply(s, Acquire(r, localNow, ack), fleet);
            if Free(s, fleet.holder(r)) && !ack.Refused? then RowIs(t, fleet.holder(r), localNow + 300_000) && t.lastWrite == s.now
            else t.locks == s.locks && t.lastWrite == s.lastWrite
    ensures var t := Apply(s, Release(r, ack), fleet);
            if ack.Refused? || (SCHEDULER_LOCK_NAME in s.locks && s.locks[SCHEDULER_LOCK_NAME].holder != fleet.holder(r))
            then t.locks == s.locks else SCHEDULER_LOCK_NAME !in t.locks
    ensures Apply(s, Finish(r), fleet).locks == Apply(s, CrashOf(r), fleet).locks == s.locks
  {
  }

  predicate Initial(s: State) { s.locks == map[] && s.phases == map[] && s.lastWrite <= s.now }

  /** The state after the first k steps. */
  function After(s: State, steps: seq<Step>, fleet: Fleet, k: nat): State
    requires k <= |steps|
  {
    if k == 0 then s else Apply(After(s, steps, fleet, k - 1), steps[k - 1], fleet)
  }

  predicate Execution(s: State, steps: seq<Step>, fleet: Fleet) {
    Initial(s) && forall k :: 0 <= k < |steps| ==> Enabled(After(s, steps, fleet, k), steps[k], fleet)
  }

  /** Every run still inside is strictly before the locked_until it wrote. */
  predicate Timely(s: State) {
    forall r :: r in s.phases && s.phases[r].Inside? ==> s.now < s.phases[r].until
  }

  predicate TimelyThroughout(s: State, steps: seq<Step>, fleet: Fleet) {
    forall i :: 0 <= i <= |steps| ==> Timely(After(s, steps, fleet, i))
  }

  predicate RowIs(s: State, holder: string, until: int) {
    SCHEDULER_LOCK_NAME in s.locks && s.locks[SCHEDULER_LOCK_NAME] == LockRow(holder, until)
  }

  /** Whoever is inside owns the row, with the locked_until it wrote. */
  predicate InsideOwnsRow(s: State, fleet: Fleet) {
    && (forall r :: r in s.phases ==> r < fleet.size)
    && forall r :: r in s.phases && s.phases[r].Inside? ==> RowIs(s, fleet.holder(r), s.phases[r].until)
  }

  predicate AtMostOneInside(s: State) {
    forall q, r :: q in s.phases && r in s.phases && s.phases[q].Inside? && s.phases[r].Inside? ==> q == r
  }

  /** With distinct holder strings, a timely step keeps the row with whoever is inside. */
  lemma StepKeepsOwner(s: State, step: Step, fleet: Fleet)
    requires Enabled(s, step, fleet) && InsideOwnsRow(s, fleet) && Timely(s) && DistinctHolders(fleet)
    ensures InsideOwnsRow(Apply(s, step, fleet), fleet)
  {
  }

  lemma {:induction false} OwnerThroughout(s: State, steps: seq<Step>, fleet: Fleet, k: nat)
    requires Execution(s, steps, fleet) && k <= |steps| && DistinctHolders(fleet)
    requires forall i :: 0 <= i < k ==> Timely(After(s, steps, fleet, i))
    ensures InsideOwnsRow(After(s, steps, fleet, k), fleet)
  {
    if k > 0 {
      OwnerThroughout(s, steps, fleet, k - 1);
      StepKeepsOwner(After(s, steps, fleet, k - 1), steps[k - 1], fleet);
    }
  }

  /**
   * For every interleaving of any number of replicas with distinct holder strings, with crashes, lost
   * statements and any clock skew: while every run ends strictly before the locked_until it wrote, no
   * two replicas are ever inside runAllCountries together.
   */
  lemma MutualExclusion(s: State, steps: seq<Step>, fleet: Fleet)
    requires Execution(s, steps, fleet) && DistinctHolders(fleet)
    requires forall i :: 0 <= i < |steps| ==> Timely(After(s, steps, fleet, i))
    ensures AtMostOneInside(After(s, steps, fleet, |steps|))
  {
    OwnerThroughout(s, steps, fleet, |steps|);
  }

  /**
   * While one replica is inside and owns the row, another's acknowledged attempt gets in exactly when
   * the first has overrun or shares its holder string.
   */
  lemma IntrusionExactly(s: State, fleet: Fleet, q: nat, r: nat, localNow: int)
    requires PhaseOf(s, q).Inside? && RowIs(s, fleet.holder(q), PhaseOf(s, q).until)
    requires q != r && PhaseOf(s, r) == Idle
    ensures PhaseOf(Apply(s, Acquire(r, localNow, Applied), fleet), r).Inside?
            <==> PhaseOf(s, q).until <= s.now || fleet.holder(q) == fleet.holder(r)
  {
  }

  /** A release takes the row from a replica inside exactly when both have one holder string. */
  lemma ReleaseTakesRowExactly(s: State, fleet: Fleet, q: nat, r: nat)
    requires PhaseOf(s, q).Inside? && RowIs(s, fleet.holder(q), PhaseOf(s, q).until)
    ensures SCHEDULER_LOCK_NAME !in Apply(s, Release(r, Applied), fleet).locks <==> fleet.holder(q) == fleet.holder(r)
  {
  }

  const START := State(map[], 0, map[], 0)

  /** Two replicas that try one after the other. */
  function TwoAttempts(q: nat, r: nat): seq<Step> { [Acquire(q, 0, Applied), Acquire(r, 0, Applied)] }

  /** With one holder string, two replicas are inside together, both on time. */
  lemma SharedHolderBreaksExclusion(fleet: Fleet, q: nat, r: nat)
    requires q < fleet.size && r < fleet.size && q != r && fleet.holder(q) == fleet.holder(r)
    ensures Execution(START, TwoAttempts(q, r), fleet) && TimelyThroughout(START, TwoAttempts(q, r), fleet)
    ensures !AtMostOneInside(After(START, TwoAttempts(q, r), fleet, 2))
  {
    var steps := TwoAttempts(q, r);
    var one := After(START, steps, fleet, 1);
    assert After(START, steps, fleet, 0) == START;
    assert one == Apply(START, steps[0], fleet);
    assert one.phases == map[q := Inside(SCHEDULER_LOCK_TTL_MS)];
    var two := After(START, steps, fleet, 2);
    assert two == Apply(one, steps[1], fleet);
    assert two.phases[q].Inside? && two.phases[r].Inside?;
  }

  ghost predicate Excludes(fleet: Fleet) {
    forall s, steps :: Execution(s, steps, fleet) && TimelyThroughout(s, steps, fleet) ==>
      AtMostOneInside(After(s, steps, fleet, |steps|))
  }

  /** The lease keeps timely replicas apart exactly when their holder strings are distinct. */
  lemma ExcludesExactly(fleet: Fleet)
    ensures Excludes(fleet) <==> DistinctHolders(fleet)
  {
    if DistinctHolders(fleet) {
      forall s, steps | Execution(s, steps, fleet) && TimelyThroughout(s, steps, fleet)
        ensures AtMostOneInside(After(s, steps, fleet, |steps|))
      {
        MutualExclusion(s, steps, fleet);
      }
    } else {
      var q: nat, r: nat :| q < fleet.size && r < fleet.size && q != r && fleet.holder(q) == fleet.holder(r);
      SharedHolderBreaksExclusion(fleet, q, r);
      assert |TwoAttempts(q, r)| == 2;
    }
  }

  function Overrun(): seq<Step> {
    [Acquire(0, 0, Applied), Tick(SCHEDULER_LOCK_TTL_MS), Acquire(1, SCHEDULER_LOCK_TTL_MS, Applied)]
  }

  /** A run that ends exactly at its locked_until is already too late: two replicas are inside. */
  lemma OverrunBreaksExclusion(fleet: Fleet)
    requires fleet.size >= 2
    ensures Execution(START, Overrun(), fleet) && !AtMostOneInside(After(START, Overrun(), fleet, 3))
  {
    var steps := Overrun();
    assert After(START, steps, fleet, 0) == START;
    var one := After(START, steps, fleet, 1);
    assert one == Apply(START, steps[0], fleet);
    assert one.phases == map[0 := Inside(SCHEDULER_LOCK_TTL_MS)];
    var two := After(START, steps, fleet, 2);
    assert two == one.(now := SCHEDULER_LOCK_TTL_MS);
    var last := After(START, steps, fleet, 3);
    assert last == Apply(two, steps[2], fleet);
    assert last.phases[0].Inside? && last.phases[1].Inside?;
  }

  /** The step writes to the lock table under another holder string, or not at all. */
  predicate LeavesToOthers(step: Step, holder: string, fleet: Fleet) {
    (step.Acquire? || step.Release?) ==> fleet.holder(step.replica) != holder
  }

  /** Step k is before the deadline, and not under this holder string. */
  predicate QuietAt(s: State, steps: seq<Step>, fleet: Fleet, k: nat, holder: string, until: int)
    requires k < |steps|
  {
    LeavesToOthers(steps[k], holder, fleet) && After(s, steps, fleet, k).now < until
  }

  /**
   * In every sequence of steps, whether runs are on time or not: a row stays as it was written until
   * its deadline, whatever is done under other holder strings, late releases of expired holders included.
   */
  lemma {:induction false} LateReleaseIsHarmless(
      s: State, steps: seq<Step>, fleet: Fleet, holder: string, until: int, i: nat, k: nat)
    requires i <= k <= |steps| && RowIs(After(s, steps, fleet, i), holder, until)
    requires forall j :: i <= j < k ==> QuietAt(s, steps, fleet, j, holder, until)
    ensures RowIs(After(s, steps, fleet, k), holder, until)
  {
    if i < k {
      LateReleaseIsHarmless(s, steps, fleet, holder, until, i, k - 1);
      assert QuietAt(s, steps, fleet, k - 1, holder, until);
      RowStays(After(s, steps, fleet, k - 1), steps[k - 1], fleet, holder, until);
    }
  }

  lemma RowStays(s: State, step: Step, fleet: Fleet, holder: string, until: int)
    requires RowIs(s, holder, until) && LeavesToOthers(step, holder, fleet) && s.now < until
    ensures RowIs(Apply(s, step, fleet), holder, until)
  {
  }

  /** A row never promises more than the TTL, plus skew, from the moment it was written. */
  predicate LeaseBounded(s: State, maxSkew: nat) {
    s.lastWrite <= s.now
    && (SCHEDULER_LOCK_NAME in s.locks ==>
          s.locks[SCHEDULER_LOCK_NAME].lockedUntil <= s.lastWrite + maxSkew + SCHEDULER_LOCK_TTL_MS)
  }

  lemma {:induction false} LeaseAlwaysBounded(s: State, steps: seq<Step>, fleet: Fleet, k: nat)
    requires Execution(s, steps, fleet) && k <= |steps|
    ensures LeaseBounded(After(s, steps, fleet, k), fleet.maxSkew)
  {
    if k > 0 {
      LeaseAlwaysBounded(s, steps, fleet, k - 1);
      assert Enabled(After(s, steps, fleet, k - 1), steps[k - 1], fleet);
    }
  }

  /**
   * A crashed, vanished or unacknowledged holder blocks the others for at most five minutes (plus skew)
   * after it wrote the row: from then on every acknowledged attempt of an idle replica gets in.
   */
  lemma CrashBlocksAtMostTtl(s: State, steps: seq<Step>, fleet: Fleet, r: nat, localNow: int)
    requires Execution(s, steps, fleet)
    requires var t := After(s, steps, fleet, |steps|); t.now >= t.lastWrite + fleet.maxSkew + 300_000
    ensures PhaseOf(Apply(After(s, steps, fleet, |steps|), Acquire(r, localNow, Applied), fleet), r).Inside?
  {
    LeaseAlwaysBounded(s, steps, fleet, |steps|);
  }
}
