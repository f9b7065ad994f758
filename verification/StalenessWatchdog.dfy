/**
 * The staleness watchdog of api/internal/alert/watchdog.go over the alert_dedupe table of
 * api/internal/database/queries.go: claim, send, and release when the send failed, with several
 * replicas, crashes and failing statements.
 */
module StalenessWatchdog {
  import opened Wrappers
  import opened EventStore

  // ---------------------------------------------------------------- decisions

  datatype RunTimes = RunTimes(startedAt: int, completedAt: Option<int>)

  /** The time staleness is measured from. */
  function StalenessReferenceTime(lastSuccess: Option<RunTimes>, first: Option<RunTimes>): Option<int> {
    if lastSuccess.Some? then
      if lastSuccess.value.completedAt.Some? then lastSuccess.value.completedAt else Some(lastSuccess.value.startedAt)
    else if first.Some? then Some(first.value.startedAt)
    else None
  }

  /** What a lookup of a run yields. */
  datatype Lookup = Failed | Found(run: Option<RunTimes>)

  /** The first run is looked up only if there is no successful one; a failed lookup gives no reference. */
  function LatestReference(lastSuccess: Lookup, first: Lookup): Option<int> {
    if lastSuccess.Failed? then None
    else if lastSuccess.run.Some? then StalenessReferenceTime(lastSuccess.run, None)
    else if first.Failed? then None
    else StalenessReferenceTime(None, first.run)
  }

  predicate ShouldSend(now: int, reference: int, threshold: nat, last: Option<int>) {
    now - reference > threshold && last != Some(reference)
  }

  // ---------------------------------------------------------------- the dedupe table

  /** Claims by reference time; the value, who claimed it, is not stored by the program. */
  class AlertDedupe {
    var claimed: set<int>

    constructor ()
      ensures claimed == {}
    {
      claimed := {};
    }

    method TryRecordStalenessAlert(reference: int, ack: Ack) returns (recorded: Option<bool>)
      modifies this
      ensures claimed == if ack.Refused? then old(claimed) else old(claimed) + {reference}
      ensures recorded == if ack.Applied? then Some(reference !in old(claimed)) else None
    {
      recorded := if ack.Applied? then Some(reference !in claimed) else None;
      if !ack.Refused? {
        claimed := claimed + {reference};
      }
    }

    method ReleaseStalenessAlertClaim(reference: int, ack: Ack)
      modifies this
      ensures claimed == if ack.Refused? then old(claimed) else old(claimed) - {reference}
    {
      if !ack.Refused? {
        claimed := claimed - {reference};
      }
    }
  }

  // ---------------------------------------------------------------- replicas

  /** Where a replica is in its tick: waiting, holding a claim it is about to send, or about to release it. */
  datatype Phase = Waiting | Claimed(reference: int) | SendFailed(reference: int)

  datatype Replica = Replica(phase: Phase, last: Option<int>)

  /** claims maps a claimed reference to the replica that inserted the row; sends counts successful sends. */
  datatype State = State(claims: map<int, string>, replicas: map<string, Replica>, sends: map<int, nat>)

  datatype Step =
    | Tick(replica: string, now: int, later: int, reference: int, threshold: nat, ack: Ack)
    | Send(replica: string, ok: bool)
    | Release(replica: string, ack: Ack)
    | Crash(replica: string)

  function ReplicaOf(s: State, r: string): Replica {
    if r in s.replicas then s.replicas[r] else Replica(Waiting, None)
  }

  function Sends(s: State, reference: int): nat { if reference in s.sends then s.sends[reference] else 0 }

  predicate Enabled(s: State, step: Step) {
    match step
    case Tick(r, _, _, _, _, _) => ReplicaOf(s, r).phase.Waiting?
    case Send(r, _) => ReplicaOf(s, r).phase.Claimed?
    case Release(r, _) => ReplicaOf(s, r).phase.SendFailed?
    case Crash(r) => true
  }

  function Apply(s: State, step: Step): State
    requires Enabled(s, step)
  {
    match step
    case Tick(r, now, later, reference, threshold, ack) =>
      var me := ReplicaOf(s, r);
      if !ShouldSend(now, reference, threshold, me.last) then
        if later - reference <= threshold then s.(replicas := s.replicas[r := me.(last := None)]) else s
      else
        var free := reference !in s.claims;
        var claims := if free && !ack.Refused? then s.claims[reference := r] else s.claims;
        if !ack.Applied? then s.(claims := claims)
        else if free then s.(claims := claims, replicas := s.replicas[r := me.(phase := Claimed(reference))])
        else s.(replicas := s.replicas[r := me.(last := Some(reference))])
    case Send(r, ok) =>
      var me := ReplicaOf(s, r);
      var reference := me.phase.reference;
      if ok then
        s.(replicas := s.replicas[r := Replica(Waiting, Some(reference))],
           sends := s.sends[reference := Sends(s, reference) + 1])
      else s.(replicas := s.replicas[r := me.(phase := SendFailed(reference))])
    case Release(r, ack) =>
      var me := ReplicaOf(s, r);
      s.(claims := if ack.Refused? then s.claims else s.claims - {me.phase.reference},
         replicas := s.replicas[r := me.(phase := Waiting)])
    case Crash(r) => s.(replicas := s.replicas[r := Replica(Waiting, None)])
  }

  /** A replica's whole tick, when nothing comes between its steps. */
  function Ticked(
      s: State, r: string, now: int, later: int, reference: int, threshold: nat, claim: Ack, sendOk: bool, release: Ack): State
    requires ReplicaOf(s, r).phase.Waiting?
  {
    var claimed := Apply(s, Tick(r, now, later, reference, threshold, claim));
    if !ReplicaOf(claimed, r).phase.Claimed? then claimed
    else
      var tried := Apply(claimed, Send(r, sendOk));
      if sendOk then tried else Apply(tried, Release(r, release))
  }

  /** A tick without a claim table: what the replica remembers after it, and whether it sent. */
  function Remembered(
      last: Option<int>, now: int, later: int, reference: int, threshold: nat, sendOk: bool): (Option<int>, bool)
  {
    if !ShouldSend(now, reference, threshold, last) then (if later - reference <= threshold then None else last, false)
    else if sendOk then (Some(reference), true)
    else (last, false)
  }

  // ---------------------------------------------------------------- every interleaving

  const START := State(map[], map[], map[])

  /** A run of the whole system: any replicas, any order of steps. */
  predicate Behaviour(states: seq<State>, steps: seq<Step>) {
    && |states| == |steps| + 1 && states[0] == START
    && forall k :: 0 <= k < |steps| ==> Enabled(states[k], steps[k]) && states[k + 1] == Apply(states[k], steps[k])
  }

  predicate Holds(p: Phase, reference: int) {
    !p.Waiting? && p.reference == reference
  }

  /** A replica about to send or release owns the claim, has not marked the reference, and nothing was sent for it. */
  predicate HoldersOwnTheirClaim(s: State) {
    forall r :: r in s.replicas && !s.replicas[r].phase.Waiting? ==>
      var reference := s.replicas[r].phase.reference;
      && reference in s.claims && s.claims[reference] == r
      && Sends(s, reference) == 0 && s.replicas[r].last != Some(reference)
  }

  /** At most one successful send per reference, and a sent reference stays claimed. */
  predicate SentAtMostOnce(s: State) {
    forall reference :: reference in s.sends ==>
      s.sends[reference] <= 1 && (s.sends[reference] == 1 ==> reference in s.claims)
  }

  predicate Safe(s: State) { HoldersOwnTheirClaim(s) && SentAtMostOnce(s) }

  lemma StepIsSafe(s: State, step: Step)
    requires Safe(s) && Enabled(s, step)
    ensures Safe(Apply(s, step))
  {
    var t := Apply(s, step);
    forall r | r in t.replicas && !t.replicas[r].phase.Waiting?
      ensures var reference := t.replicas[r].phase.reference;
              && reference in t.claims && t.claims[reference] == r
              && Sends(t, reference) == 0 && t.replicas[r].last != Some(reference)
    {
      match step
      case Tick(q, now, later, reference, threshold, ack) =>
        assert q != r ==> r in s.replicas && s.replicas[r] == t.replicas[r];
      case Send(q, ok) =>
        assert q != r ==> r in s.replicas && s.replicas[r] == t.replicas[r];
      case Release(q, ack) =>
        assert q != r ==> r in s.replicas && s.replicas[r] == t.replicas[r];
      case Crash(q) =>
        assert q != r ==> r in s.replicas && s.replicas[r] == t.replicas[r];
    }
  }

  /** Over all replicas, interleavings, crashes and failed statements: at most one successful send per reference. */
  lemma {:induction false} AtMostOneSend(states: seq<State>, steps: seq<Step>, k: nat)
    requires Behaviour(states, steps) && k < |states|
    ensures Safe(states[k]) && forall reference :: Sends(states[k], reference) <= 1
  {
    if k > 0 {
      AtMostOneSend(states, steps, k - 1);
      StepIsSafe(states[k - 1], steps[k - 1]);
    }
  }

  /** A release deletes at most one claim, and that one was the releasing replica's own and never sent. */
  lemma ReleaseDeletesOwnClaim(states: seq<State>, steps: seq<Step>, k: nat)
    requires Behaviour(states, steps) && k < |steps| && steps[k].Release?
    ensures forall reference :: reference in states[k].claims && reference !in states[k + 1].claims ==>
              states[k].claims[reference] == steps[k].replica && Sends(states[k], reference) == 0
    ensures forall reference :: reference in states[k + 1].claims ==>
              reference in states[k].claims && states[k + 1].claims[reference] == states[k].claims[reference]
  {
    AtMostOneSend(states, steps, k);
  }

  /**
   * After a failed send and a successful release the reference is claimable again, and the same
   * replica claims it on its next tick, as long as nobody else did in between and the data is still stale.
   */
  lemma FailedSendIsRetried(states: seq<State>, steps: seq<Step>, k: nat, now: int, later: int, threshold: nat)
    requires Behaviour(states, steps) && k < |steps| && steps[k].Release? && steps[k].ack.Applied?
    requires var reference := ReplicaOf(states[k], steps[k].replica).phase.reference; now - reference > threshold
    ensures var r, reference := steps[k].replica, ReplicaOf(states[k], steps[k].replica).phase.reference;
            && reference !in states[k + 1].claims
            && Enabled(states[k + 1], Tick(r, now, later, reference, threshold, Applied))
            && ReplicaOf(Apply(states[k + 1], Tick(r, now, later, reference, threshold, Applied)), r).phase == Claimed(reference)
  {
    AtMostOneSend(states, steps, k);
  }

  // ---------------------------------------------------------------- only stale data, only once

  /** Stale: older than the threshold. */
  predicate Stale(now: int, reference: int, threshold: nat) { reference + threshold < now }

  /**
   * A replica comes to hold a claim exactly by a tick that finds the data stale, not alerted by itself
   * since, and the claim free, and whose insert is acknowledged.
   */
  lemma ClaimedExactly(states: seq<State>, steps: seq<Step>, k: nat, r: string, reference: int)
    requires Behaviour(states, steps) && k < |steps| && ReplicaOf(states[k], r).phase == Waiting
    ensures ReplicaOf(states[k + 1], r).phase == Claimed(reference)
            <==> exists now, later, threshold ::
                   steps[k] == Tick(r, now, later, reference, threshold, Applied) && Stale(now, reference, threshold)
                   && ReplicaOf(states[k], r).last != Some(reference) && reference !in states[k].claims
  {
  }

  /** Step j was this replica's tick over stale data, and it has held the claim since. */
  ghost predicate ClaimedAt(states: seq<State>, steps: seq<Step>, j: nat, k: nat, r: string, reference: int)
    requires |states| == |steps| + 1 && j < k < |states|
  {
    && (exists now, later, threshold, ack :: steps[j] == Tick(r, now, later, reference, threshold, ack) && Stale(now, reference, threshold))
    && forall i :: j < i <= k ==> ReplicaOf(states[i], r).phase == Claimed(reference)
  }

  lemma {:induction false} ClaimGoesBack(states: seq<State>, steps: seq<Step>, k: nat, r: string, reference: int)
    requires Behaviour(states, steps) && k < |states| && ReplicaOf(states[k], r).phase == Claimed(reference)
    ensures exists j :: 0 <= j < k && ClaimedAt(states, steps, j, k, r, reference)
  {
    var before := ReplicaOf(states[k - 1], r).phase;
    if before == Claimed(reference) {
      ClaimGoesBack(states, steps, k - 1, r, reference);
      var j :| 0 <= j < k - 1 && ClaimedAt(states, steps, j, k - 1, r, reference);
      assert ClaimedAt(states, steps, j, k, r, reference);
    } else {
      ClaimedExactly(states, steps, k - 1, r, reference);
      assert ClaimedAt(states, steps, k - 1, k, r, reference);
    }
  }

  /** Fresh data is never alerted: each send, over every behaviour, was claimed by a tick of its replica that found the data stale. */
  lemma SendsAreStale(states: seq<State>, steps: seq<Step>, k: nat)
    requires Behaviour(states, steps) && k < |steps| && steps[k].Send?
    ensures var r := steps[k].replica;
            ReplicaOf(states[k], r).phase.Claimed?
            && exists j :: 0 <= j < k && ClaimedAt(states, steps, j, k, r, ReplicaOf(states[k], r).phase.reference)
  {
    ClaimGoesBack(states, steps, k, steps[k].replica, ReplicaOf(states[k], steps[k].replica).phase.reference);
  }

  /** A tick forgets the last alert exactly when the data is fresh by both clock readings, and then does nothing else. */
  lemma FreshTickForgets(s: State, r: string, now: int, later: int, reference: int, threshold: nat, ack: Ack)
    requires ReplicaOf(s, r).phase.Waiting? && !Stale(now, reference, threshold)
    ensures var t := Apply(s, Tick(r, now, later, reference, threshold, ack));
            && t.claims == s.claims && t.sends == s.sends && ReplicaOf(t, r).phase == Waiting
            && ReplicaOf(t, r).last == (if Stale(later, reference, threshold) then ReplicaOf(s, r).last else None)
            && forall q :: q != r ==> ReplicaOf(t, q) == ReplicaOf(s, q)
  {
  }

  /** What is left of a tick: a send is counted and remembered or leads to a release; a release gives the claim up; a crash forgets. */
  lemma AfterTheClaim(s: State, r: string, reference: int, ok: bool, ack: Ack)
    ensures ReplicaOf(s, r).phase == Claimed(reference) ==>
              var t := Apply(s, Send(r, ok));
              && t.claims == s.claims
              && (if ok then ReplicaOf(t, r) == Replica(Waiting, Some(reference)) && Sends(t, reference) == Sends(s, reference) + 1
                  else ReplicaOf(t, r) == Replica(SendFailed(reference), ReplicaOf(s, r).last) && t.sends == s.sends)
    ensures ReplicaOf(s, r).phase == SendFailed(reference) ==>
              var t := Apply(s, Release(r, ack));
              && ReplicaOf(t, r) == Replica(Waiting, ReplicaOf(s, r).last) && t.sends == s.sends
              && t.claims.Keys == (if ack.Refused? then s.claims.Keys else s.claims.Keys - {reference})
    ensures Enabled(s, Crash(r))
            && var t := Apply(s, Crash(r)); ReplicaOf(t, r) == Replica(Waiting, None) && t.claims == s.claims && t.sends == s.sends
  {
  }

  /** An undisturbed tick would send: stale, not alerted by this replica, and claimed by nobody, as far as it is told. */
  predicate Due(s: State, r: string, now: int, reference: int, threshold: nat, claim: Ack) {
    Stale(now, reference, threshold) && ReplicaOf(s, r).last != Some(reference) && reference !in s.claims && claim.Applied?
  }

  /**
   * An undisturbed tick, from the first clock reading to the release: it sends exactly if due and the email goes
   * out; the claim stands after it unless it was given up or never made; and it remembers what it or another sent.
   */
  lemma TickExactly(
      s: State, r: string, now: int, later: int, reference: int, threshold: nat, claim: Ack, sendOk: bool, release: Ack)
    requires ReplicaOf(s, r).phase == Waiting
    ensures var t := Ticked(s, r, now, later, reference, threshold, claim, sendOk, release);
            var due, last := Due(s, r, now, reference, threshold, claim), ReplicaOf(s, r).last;
            && Sends(t, reference) == Sends(s, reference) + (if due && sendOk then 1 else 0)
            && (reference in t.claims <==>
                  || reference in s.claims
                  || (Stale(now, reference, threshold) && last != Some(reference) && !claim.Refused?
                      && !(due && !sendOk && !release.Refused?)))
            && ReplicaOf(t, r).phase == Waiting
            && ReplicaOf(t, r).last
               == if !Stale(now, reference, threshold) || last == Some(reference)
                  then (if Stale(later, reference, threshold) then last else None)
                  else if claim.Applied? && (reference in s.claims || sendOk) then Some(reference) else last
  {
  }

  /** Without a claim table, a tick sends exactly over stale data this replica has not alerted, and remembers it if it went out. */
  lemma SentAloneExactly(last: Option<int>, now: int, later: int, reference: int, threshold: nat, sendOk: bool)
    ensures var (after, sent) := Remembered(last, now, later, reference, threshold, sendOk);
            && (sent <==> Stale(now, reference, threshold) && last != Some(reference) && sendOk)
            && (after == Some(reference) <==> sent || (last == Some(reference) && Stale(later, reference, threshold)))
            && (after == None <==> !sent && (last == None || !Stale(later, reference, threshold))
                                   && (last == None || last == Some(reference) || !Stale(now, reference, threshold)))
            && after in {None, last, Some(reference)}
  {
  }

  /**
   * Staleness is measured from the last success: its completion, else its start. Only if there never
   * was one, from the start of the first run. A lookup that fails where it was needed gives nothing.
   */
  lemma ReferenceExactly(lastSuccess: Lookup, first: Lookup, at: int)
    ensures LatestReference(lastSuccess, first) == Some(at)
            <==> || (exists start :: lastSuccess == Found(Some(RunTimes(start, Some(at)))))
                 || lastSuccess == Found(Some(RunTimes(at, None)))
                 || (lastSuccess == Found(None) && exists completed :: first == Found(Some(RunTimes(at, completed))))
  {
    if lastSuccess.Found? && lastSuccess.run.Some? {
      assert lastSuccess == Found(Some(RunTimes(lastSuccess.run.value.startedAt, lastSuccess.run.value.completedAt)));
    }
    if first.Found? && first.run.Some? {
      assert first == Found(Some(RunTimes(first.run.value.startedAt, first.run.value.completedAt)));
    }
  }

  // ---------------------------------------------------------------- orphaned claims

  /** No replica is on its way to send or release this reference. */
  predicate Orphaned(s: State, reference: int) {
    reference in s.claims && forall r :: r in s.replicas ==> !Holds(s.replicas[r].phase, reference)
  }

  /**
   * The documented gap: a claim left behind by a crash or a failed release stays for good, and
   * nothing more is ever sent for its reference.
   */
  lemma {:induction false} OrphanedClaimBlocks(states: seq<State>, steps: seq<Step>, reference: int, k: nat, n: nat)
    requires Behaviour(states, steps) && k <= n < |states| && Orphaned(states[k], reference)
    ensures Orphaned(states[n], reference) && Sends(states[n], reference) == Sends(states[k], reference)
  {
    if k < n {
      OrphanedClaimBlocks(states, steps, reference, k, n - 1);
      OrphanStays(states[n - 1], steps[n - 1], reference);
    }
  }

  lemma OrphanStays(s: State, step: Step, reference: int)
    requires Enabled(s, step) && Orphaned(s, reference)
    ensures Orphaned(Apply(s, step), reference) && Sends(Apply(s, step), reference) == Sends(s, reference)
  {
  }

  // ---------------------------------------------------------------- one tick

  class Watchdog {
    var lastAlertReference: Option<int>

    constructor ()
      ensures lastAlertReference == None
    {
      lastAlertReference := None;
    }

    /** This object and the claim table are what replica r and the table are in s. */
    ghost predicate Represents(dedupe: AlertDedupe?, s: State, r: string)
      reads this, dedupe
    {
      dedupe != null && s.claims.Keys == dedupe.claimed && ReplicaOf(s, r) == Replica(Waiting, lastAlertReference)
    }

    /** A tick without a reference does nothing; otherwise OnReference says what it does. */
    method OnTick(
        dedupe: AlertDedupe?, lastSuccess: Lookup, first: Lookup, now: int, later: int, threshold: nat,
        claim: Ack, sendOk: bool, release: Ack, ghost s: State, ghost r: string)
      returns (sent: bool)
      requires dedupe != null ==> Represents(dedupe, s, r)
      modifies this, dedupe
      ensures LatestReference(lastSuccess, first).None? ==>
                !sent && lastAlertReference == old(lastAlertReference) && (dedupe != null ==> Represents(dedupe, s, r))
      ensures LatestReference(lastSuccess, first).Some? && dedupe != null ==>
                var reference := LatestReference(lastSuccess, first).value;
                var after := Ticked(s, r, now, later, reference, threshold, claim, sendOk, release);
                Represents(dedupe, after, r) && Sends(after, reference) == Sends(s, reference) + if sent then 1 else 0
      ensures LatestReference(lastSuccess, first).Some? && dedupe == null ==>
                var reference := LatestReference(lastSuccess, first).value;
                (lastAlertReference, sent) == Remembered(old(lastAlertReference), now, later, reference, threshold, sendOk)
    {
      var reference := LatestReference(lastSuccess, first);
      if reference.None? {
        return false;
      }
      sent := OnReference(dedupe, reference.value, now, later, threshold, claim, sendOk, release, s, r);
    }

    /**
     * A tick with a reference is the replica's tick, send and release steps, one after the other; without
     * a claim table only the replica's own memory counts. The clock is read twice, for the decision and
     * for the reset.
     */
    method OnReference(
        dedupe: AlertDedupe?, reference: int, now: int, later: int, threshold: nat,
        claim: Ack, sendOk: bool, release: Ack, ghost s: State, ghost r: string)
      returns (sent: bool)
      requires dedupe != null ==> Represents(dedupe, s, r)
      modifies this, dedupe
      ensures dedupe != null ==>
                var after := Ticked(s, r, now, later, reference, threshold, claim, sendOk, release);
                Represents(dedupe, after, r) && Sends(after, reference) == Sends(s, reference) + if sent then 1 else 0
      ensures dedupe == null ==>
                (lastAlertReference, sent) == Remembered(old(lastAlertReference), now, later, reference, threshold, sendOk)
    {
      sent := false;
      if !ShouldSend(now, reference, threshold, lastAlertReference) {
        if later - reference <= threshold {
          lastAlertReference := None;
        }
        return;
      }
      if dedupe != null {
        var recorded := dedupe.TryRecordStalenessAlert(reference, claim);
        if recorded.None? {
          return;
        }
        if !recorded.value {
          lastAlertReference := Some(reference);
          return;
        }
      }
      if !sendOk {
        if dedupe != null {
          dedupe.ReleaseStalenessAlertClaim(reference, release);
        }
        return;
      }
      lastAlertReference := Some(reference);
      sent := true;
    }
  }
}
