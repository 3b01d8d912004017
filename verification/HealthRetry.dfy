/**
 * When an HTTP retry probes again: the exact condition under which the result of an accepted probe is lost, and runs in
 * which it is.
 */
module HealthRetry {
  import opened Prelude
  import opened Decimals
  import opened HealthSlots
  import opened HealthRecords
  import opened HealthBatches
  import opened HealthReplay

  lemma {:induction false} Extend(c: Context, s: State, run: seq<Event>, e: Event)
    ensures Reached(c, s, run + [e]) == Next(c, Reached(c, s, run), e)
  {
    assert (run + [e])[..|run|] == run;
  }

  lemma {:induction false} TwoSteps(c: Context, s: State, a: Event, b: Event)
    ensures Reached(c, s, [a, b]) == Next(c, Next(c, s, a), b)
  {
    Extend(c, s, [], a);
    Extend(c, s, [a], b);
    assert [] + [a] == [a] && [a] + [b] == [a, b];
  }

  lemma {:induction false} ReachedConcat(c: Context, s: State, a: seq<Event>, b: seq<Event>)
    ensures Reached(c, s, a + b) == Reached(c, Reached(c, s, a), b)
  {
    if b == [] {
      assert a + b == a;
    } else {
      ReachedConcat(c, s, a, b[..|b| - 1]);
      assert (a + b)[..|a + b| - 1] == a + b[..|b| - 1];
    }
  }

  // ------------------------------------------------------------------- one attempt

  predicate Concerns(job: Job, k: Cycle) { job.cycle == k.source && job.fingerprint == k.fingerprint }

  /** An activity for the cycle takes the lock and checks. */
  function Opening(job: Job, origin: Origin): seq<Event> { [Begin(job, origin), Recover] }

  /** The activity can begin here. */
  predicate CanBegin(c: Context, s: State, job: Job, origin: Origin, k: Cycle) {
    Legal(c, s, Begin(job, origin)) && Concerns(job, k)
  }

  /** An activity comes to the point of probing exactly when the cycle has no evidence. */
  lemma {:induction false} OpensExactly(c: Context, s: State, job: Job, origin: Origin, k: Cycle)
    requires CanBegin(c, s, job, origin, k)
    ensures var t := Reached(c, s, Opening(job, origin));
            && t.store == s.store
            && (Holds(t, k) <==> !HasEvidence(c, s, k))
            && (Holds(t, k) ==> t == State(s.store, Some(Activity(job, Undecided))))
  {
    TwoSteps(c, s, Begin(job, origin), Recover);
    EvidenceIgnoresRevision(c, s, job.provider, k);
  }

  /** A probe whose observation stands, or gives way to a snapshot of the same runtime, is accepted. */
  predicate Acceptable(s: State, r: CheckResult, revision: nat, k: Cycle) {
    Superseded(s.store.snapshot, r, revision, k.fingerprint) ==> s.store.snapshot.value.fingerprint == k.fingerprint
  }

  /** Without evidence an undisturbed activity accepts every genuine probe of the runtime it was asked about. */
  lemma {:induction false} UnrecordedCycleIsProbed(
    c: Context, s: State, job: Job, origin: Origin, k: Cycle, r: CheckResult, revision: nat)
    requires CanBegin(c, s, job, origin, k) && !HasEvidence(c, s, k)
    requires Genuine(r) && Acceptable(s, r, revision, k)
    ensures Accepts(c, Reached(c, s, Opening(job, origin)), Probe(r, k.fingerprint, revision, true), k)
  {
    OpensExactly(c, s, job, origin, k);
  }

  /** Some probe is accepted for the cycle. */
  ghost predicate ProbesAgain(c: Context, s: State, k: Cycle) { exists e :: Accepts(c, s, e, k) }

  lemma ProbingNeedsHolding(c: Context, s: State, k: Cycle)
    ensures ProbesAgain(c, s, k) ==> Holds(s, k)
  {
  }

  // --------------------------------------------------------------------- the retry

  /** What makes an accepted probe leave nothing that a check of the cycle would find. */
  predicate Unrecorded(s: State, job: Job, e: Event, k: Cycle)
    requires e.Probe?
  {
    || Superseded(s.store.snapshot, e.result, e.revision, e.fingerprint)
    || (job.local && NamedSlot(k.source) != Some(Slot(TestedMs(e.result))))
  }

  lemma RouterSourceIsNotScheduled(at: nat)
    ensures RouterCycleSource(at) != SCHEDULED
  {
    assert SLOT_PREFIX[10] == 'r' && SCHEDULED[10] == 's';
    assert RouterCycleSource(at)[10] == SLOT_PREFIX[10];
  }

  /** Clocks give times of the machine's width. */
  predicate OnTime(origin: Origin) { origin.FromSchedule? ==> origin.now <= U128_MAX }

  /** The evidence an accepted probe leaves, by either scheduler. */
  lemma {:induction false} AcceptedLeavesEvidenceExactly(
    c: Context, s: State, job: Job, origin: Origin, k: Cycle, e: Event)
    requires CanBegin(c, s, job, origin, k) && OnTime(origin) && !HasEvidence(c, s, k)
    requires Accepts(c, Reached(c, s, Opening(job, origin)), e, k)
    ensures HasEvidence(c, Next(c, Reached(c, s, Opening(job, origin)), e), k) <==> !Unrecorded(s, job, e, k)
  {
    var t := Reached(c, s, Opening(job, origin));
    OpensExactly(c, s, job, origin, k);
    if job.local {
      SourceNamesItsSlot(origin.now);
      RouterSourceIsNotScheduled(origin.now);
      AcceptedLocalLeavesEvidence(c, t, e, k);
    } else {
      AcceptedBatchLeavesEvidence(c, t, e, k);
    }
  }

  /** The run of an activity that stops right after its accepted probe. */
  function CutShort(job: Job, origin: Origin, e: Event): seq<Event> { Opening(job, origin) + [e] + [Abort] }

  lemma {:induction false} CutShortState(c: Context, s: State, job: Job, origin: Origin, k: Cycle, e: Event)
    requires CanBegin(c, s, job, origin, k)
    requires Accepts(c, Reached(c, s, Opening(job, origin)), e, k)
    ensures var probed := Next(c, Reached(c, s, Opening(job, origin)), e);
            Reached(c, s, CutShort(job, origin, e)) == probed.(active := None)
  {
    var t := Reached(c, s, Opening(job, origin));
    OpensExactly(c, s, job, origin, k);
    AcceptsMeansHolds(c, t, e, k);
    Extend(c, s, Opening(job, origin), e);
    Extend(c, s, Opening(job, origin) + [e], Abort);
  }

  /** Evidence is a matter of the store alone. */
  lemma EvidenceIsStored(c: Context, s: State, t: State, k: Cycle)
    requires s.store == t.store
    ensures HasEvidence(c, s, k) <==> HasEvidence(c, t, k)
  {
  }

  /** The same result, probed once more. */
  function SameProbe(e: Event, k: Cycle): Event
    requires e.Probe?
  {
    Probe(e.result, k.fingerprint, e.revision, true)
  }

  /**
   * A retry, exactly. An activity accepts a probe of a cycle without evidence and then fails before it logs anything.
   * An undisturbed retry of the cycle, by either scheduler, probes again if and only if a snapshot stood against the
   * first probe's observation or, when that was the local scheduler's, it tested outside the slot it had checked.
   * It then accepts the very same result a second time.
   */
  lemma {:induction false} RetryProbesAgainExactly(
    c: Context, s: State, job: Job, origin: Origin, k: Cycle, e: Event, retry: Job, again: Origin)
    requires CanBegin(c, s, job, origin, k) && OnTime(origin) && !HasEvidence(c, s, k)
    requires Accepts(c, Reached(c, s, Opening(job, origin)), e, k)
    requires Of(retry.provider, c) && Sent(retry, again) && Concerns(retry, k)
    ensures var t := Reached(c, s, CutShort(job, origin, e) + Opening(retry, again));
            && (ProbesAgain(c, t, k) <==> Unrecorded(s, job, e, k))
            && (Unrecorded(s, job, e, k) ==> Accepts(c, t, SameProbe(e, k), k))
  {
    var failed := Reached(c, s, CutShort(job, origin, e));
    FailedHasEvidenceExactly(c, s, job, origin, k, e);
    ReachedConcat(c, s, CutShort(job, origin, e), Opening(retry, again));
    OpensExactly(c, failed, retry, again, k);
    var t := Reached(c, failed, Opening(retry, again));
    ProbingNeedsHolding(c, t, k);
    if Unrecorded(s, job, e, k) {
      UnrecordedCycleIsProbed(c, failed, retry, again, k, e.result, e.revision);
    }
  }

  /** What a failed activity leaves: no lock, the snapshot of its runtime, and evidence unless it went unrecorded. */
  lemma {:induction false} FailedHasEvidenceExactly(
    c: Context, s: State, job: Job, origin: Origin, k: Cycle, e: Event)
    requires CanBegin(c, s, job, origin, k) && OnTime(origin) && !HasEvidence(c, s, k)
    requires Accepts(c, Reached(c, s, Opening(job, origin)), e, k)
    ensures var failed := Reached(c, s, CutShort(job, origin, e));
            && failed.active == None
            && failed.store.snapshot.Some? && failed.store.snapshot.value.fingerprint == k.fingerprint
            && (HasEvidence(c, failed, k) <==> !Unrecorded(s, job, e, k))
  {
    var probed := Next(c, Reached(c, s, Opening(job, origin)), e);
    CutShortState(c, s, job, origin, k, e);
    EvidenceIsStored(c, probed, Reached(c, s, CutShort(job, origin, e)), k);
    AcceptedLeavesEvidenceExactly(c, s, job, origin, k, e);
  }

  // -------------------------------------------------------------- two probes of one cycle

  lemma {:induction false} CountExtends(c: Context, s: State, run: seq<Event>, e: Event, k: Cycle)
    ensures AcceptedCount(c, s, run + [e], k)
         == AcceptedCount(c, s, run, k) + if Accepts(c, Reached(c, s, run), e, k) then 1 else 0
  {
    assert (run + [e])[..|run|] == run;
  }

  lemma {:induction false} CountOfPrefix(c: Context, s: State, a: seq<Event>, b: seq<Event>, k: Cycle)
    ensures AcceptedCount(c, s, a, k) <= AcceptedCount(c, s, a + b, k)
  {
    if b == [] {
      assert a + b == a;
    } else {
      CountOfPrefix(c, s, a, b[..|b| - 1], k);
      CountExtends(c, s, a + b[..|b| - 1], b[|b| - 1], k);
      assert a + b[..|b| - 1] + [b[|b| - 1]] == a + b;
    }
  }

  /** The whole run: a cut short activity, its retry, and the second probe. */
  function ProbedTwice(job: Job, origin: Origin, k: Cycle, e: Event, retry: Job, again: Origin): seq<Event>
    requires e.Probe?
  {
    CutShort(job, origin, e) + Opening(retry, again) + [SameProbe(e, k)]
  }

  /** From every idle state without evidence, an unrecorded probe can be followed by a second one of the same cycle. */
  lemma {:induction false} UnrecordedProbeIsRepeated(
    c: Context, s: State, job: Job, origin: Origin, k: Cycle, e: Event, retry: Job, again: Origin)
    requires CanBegin(c, s, job, origin, k) && OnTime(origin) && !HasEvidence(c, s, k)
    requires Accepts(c, Reached(c, s, Opening(job, origin)), e, k) && Unrecorded(s, job, e, k)
    requires Of(retry.provider, c) && Sent(retry, again) && Concerns(retry, k)
    ensures AcceptedCount(c, s, ProbedTwice(job, origin, k, e, retry, again), k) >= 2
  {
    RetryProbesAgainExactly(c, s, job, origin, k, e, retry, again);
    var first := Opening(job, origin);
    CountExtends(c, s, first, e, k);
    CountOfPrefix(c, s, first + [e], [Abort], k);
    CountOfPrefix(c, s, CutShort(job, origin, e), Opening(retry, again), k);
    CountExtends(c, s, CutShort(job, origin, e) + Opening(retry, again), SameProbe(e, k), k);
  }

  /** A first failure that a retry of the upstream might cure. */
  predicate TransientFailure(r: CheckResult) { Genuine(r) && r.status == Failed && Transient(r) }

  /** The second result comes within a minute of the first, in another slot. */
  predicate AcrossSlots(first: CheckResult, second: CheckResult) {
    && 0 <= first.testedAt <= second.testedAt < first.testedAt + 60
    && Slot(TestedMs(first)) != Slot(TestedMs(second))
  }

  /** The local scheduler probes in its slot, finds no share to log for, and is done. */
  function LocalCycle(job: Job, now: nat, r: CheckResult, revision: nat): seq<Event> {
    Opening(job, FromSchedule(now)) + [Probe(r, job.fingerprint, revision, true)] + [Project] + [Finish]
  }

  lemma {:induction false} LocalCycleLeaves(c: Context, job: Job, now: nat, r: CheckResult, revision: nat)
    requires now <= U128_MAX && job.local && job.cycle == RouterCycleSource(now) && Of(job.provider, c)
    requires job.shares == [] && Genuine(r)
    ensures var start := State(Store([], None), None);
            Reached(c, start, LocalCycle(job, now, r, revision))
            == State(Store([], Some(Recorded(c.redact, None, r, revision, job.fingerprint, SCHEDULED))), None)
  {
    var start := State(Store([], None), None);
    var opening, e := Opening(job, FromSchedule(now)), Probe(r, job.fingerprint, revision, true);
    var k := Cycle(job.cycle, job.fingerprint);
    EmptyHasNoEvidence(c, start, k);
    OpensExactly(c, start, job, FromSchedule(now), k);
    Extend(c, start, opening, e);
    Extend(c, start, opening + [e], Project);
    Extend(c, start, opening + [e] + [Project], Finish);
  }

  lemma EmptyHasNoEvidence(c: Context, s: State, k: Cycle)
    requires s.store == Store([], None)
    ensures !HasEvidence(c, s, k)
  {
    FoundExactlyWithEvidence(s.store, Provider(c.app, c.id, 0), k.source, k.fingerprint);
  }

  lemma {:induction false} OtherSlotIsNoEvidence(c: Context, s: State, k: Cycle, at: nat)
    requires at <= U128_MAX && k.source == RouterCycleSource(at)
    requires s.store.logs == [] && s.store.snapshot.Some? && s.store.snapshot.value.source == SCHEDULED
    requires Slot(s.store.snapshot.value.checkedAt) != Slot(at)
    ensures !HasEvidence(c, s, k)
  {
    FoundExactlyWithEvidence(s.store, Provider(c.app, c.id, 0), k.source, k.fingerprint);
    SourceNamesItsSlot(at);
    RouterSourceIsNotScheduled(at);
  }

  /**
   * It does happen, from an empty store: the local scheduler leaves a transient failure awaiting confirmation at the
   * end of a slot. Within a minute, in the next slot, a batch fails transiently too; its probe is accepted, though the
   * first failure stands, and the batch then fails before it logs. Its retry probes the same cycle a second time.
   */
  lemma {:induction false} ConfirmationWindowProbesTwice(
    c: Context, local: Job, now: nat, first: CheckResult, batch: Job, origin: Origin, second: CheckResult,
    revision: nat)
    requires now <= U128_MAX && local.local && local.cycle == RouterCycleSource(now) && local.shares == []
    requires Of(local.provider, c) && Of(batch.provider, c) && origin.FromRouter? && Sent(batch, origin)
    requires local.fingerprint == batch.fingerprint && batch.cycle == RouterCycleSource(TestedMs(second))
    requires TransientFailure(first) && TransientFailure(second) && AcrossSlots(first, second)
    ensures var k, e := Cycle(batch.cycle, batch.fingerprint), Probe(second, batch.fingerprint, revision, true);
            AcceptedCount(c, Reached(c, State(Store([], None), None), LocalCycle(local, now, first, revision)),
                          ProbedTwice(batch, origin, k, e, batch, origin), k) >= 2
  {
    var k, e := Cycle(batch.cycle, batch.fingerprint), Probe(second, batch.fingerprint, revision, true);
    var s := Reached(c, State(Store([], None), None), LocalCycle(local, now, first, revision));
    LocalCycleLeaves(c, local, now, first, revision);
    FirstFailureStands(c.redact, first, second, revision, batch.fingerprint);
    OtherSlotIsNoEvidence(c, s, k, TestedMs(second));
    UnrecordedCycleIsProbed(c, s, batch, origin, k, second, revision);
    UnrecordedProbeIsRepeated(c, s, batch, origin, k, e, batch, origin);
  }

  lemma FirstFailureStands(
    redact: string -> string, first: CheckResult, second: CheckResult, revision: nat, fingerprint: string)
    requires TransientFailure(first) && TransientFailure(second) && AcrossSlots(first, second)
    ensures var snapshot := Recorded(redact, None, first, revision, fingerprint, SCHEDULED);
            && snapshot.checkedAt == TestedMs(first) && snapshot.source == SCHEDULED
            && snapshot.fingerprint == fingerprint
            && Superseded(Some(snapshot), second, revision, fingerprint)
  {
  }
}
