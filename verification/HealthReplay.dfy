/**
 * Router batches and the local scheduler sharing one probe result per cycle and runtime fingerprint.
 *
 * The model follows one Provider, whose probe lock admits one activity at a time. Between any two steps of an
 * activity the rest of the program may change the store in any way, and an activity may stop at any step: a failed
 * write, a cancelled task and a crash are all `Abort`, before or after the write took effect.
 */
module HealthReplay {
  import opened Prelude
  import opened HealthSlots
  import opened HealthRecords
  import opened HealthBatches

  /** A Router batch for a cycle, or the local scheduler acting in the slot it names as `cycle`. */
  datatype Job = Job(local: bool, cycle: string, fingerprint: string, provider: Provider, shares: seq<string>)

  /** Where an activity comes from: a request naming shares, some of them admitted, or the local schedule. */
  datatype Origin = FromRouter(ids: seq<string>, admitted: set<string>) | FromSchedule(now: nat)

  datatype Phase =
    | Checking
    | Undecided
    | Found(result: CheckResult, recovered: bool)
    | Writing(result: CheckResult, streaming: bool, todo: seq<string>, projected: set<string>, recovered: bool)

  datatype Activity = Activity(job: Job, phase: Phase)

  datatype State = State(store: Store, active: Option<Activity>)

  datatype Event =
    | Begin(job: Job, origin: Origin)
    | Recover
    | Quota(blocked: CheckResult)
    | Probe(result: CheckResult, fingerprint: string, revision: nat, recorded: bool)
    | Project
    | Write
    | Finish
    | Abort
    | Outside(store: Store)

  /** The source an activity's logs and snapshots carry. */
  function LogSource(job: Job): string { if job.local then SCHEDULED else job.cycle }

  /** What the model is given: the redaction, and the Provider's application and id. */
  datatype Context = Context(redact: string -> string, app: string, id: string)

  predicate Of(p: Provider, c: Context) { p.app == c.app && p.id == c.id }

  /** A result of a real probe: consistent, and not of the category kept for quota blocks. */
  predicate Genuine(r: CheckResult) { Consistent(r) && !QuotaBlocked(r) }

  predicate Blocked(r: CheckResult) { Consistent(r) && QuotaBlocked(r) }

  function ShareIds(logs: seq<UsageLog>, p: Provider, source: string, fingerprint: string): set<string> {
    set l | l in logs && Matches(l, p, source, fingerprint) && l.share.Some? :: l.share.value
  }

  function LogFor(c: Context, job: Job, share: string, r: CheckResult, streaming: bool): UsageLog {
    HealthUsageLog(c.redact, share, job.provider, r, LogSource(job), streaming, job.fingerprint)
  }

  /** A request gives each group its shares without repetition; the local scheduler checks the slot of its clock. */
  predicate Sent(job: Job, origin: Origin) {
    match origin
    case FromRouter(ids, admitted) => !job.local && job.shares == GroupShares(ids, admitted)
    case FromSchedule(now) => job.local && job.cycle == RouterCycleSource(now)
  }

  predicate Legal(c: Context, s: State, e: Event) {
    match e
    case Begin(job, origin) => s.active == None && Of(job.provider, c) && Sent(job, origin)
    case Outside(_) => true
    case Abort => s.active.Some?
    case Recover => s.active.Some? && s.active.value.phase.Checking?
    case Quota(r) => s.active.Some? && s.active.value.phase.Undecided? && !s.active.value.job.local && Blocked(r)
    case Probe(r, _, _, _) => s.active.Some? && s.active.value.phase.Undecided? && Genuine(r)
    case Project => s.active.Some? && s.active.value.phase.Found?
    case Write => s.active.Some? && s.active.value.phase.Writing? && s.active.value.phase.todo != []
    case Finish => s.active.Some? && s.active.value.phase.Writing? && s.active.value.phase.todo == []
  }

  /** The snapshot a probe leaves. */
  function Observed(c: Context, s: State, job: Job, e: Event): Snapshot
    requires e.Probe?
  {
    Recorded(c.redact, s.store.snapshot, e.result, e.revision, e.fingerprint, LogSource(job))
  }

  function Do(c: Context, s: State, e: Event): State
    requires Legal(c, s, e)
  {
    match e
    case Begin(job, _) => s.(active := Some(Activity(job, Checking)))
    case Outside(store) => s.(store := store)
    case Abort => s.(active := None)
    case Recover =>
      var job := s.active.value.job;
      var found := Existing(s.store, job.provider, job.cycle, job.fingerprint);
      if found == None then s.(active := Some(Activity(job, Undecided)))
      else if job.local then s.(active := None)
      else s.(active := Some(Activity(job, Found(found.value, true))))
    case Quota(r) =>
      var job := s.active.value.job;
      s.(active := Some(Activity(job, Writing(r, false, job.shares, {}, false))))
    case Probe(r, fingerprint, revision, recorded) =>
      var job := s.active.value.job;
      if !recorded then s.(active := None)
      else
        var snapshot := Observed(c, s, job, e);
        State(
          s.store.(snapshot := Some(snapshot)),
          if snapshot.fingerprint == job.fingerprint || job.local
          then Some(Activity(job.(fingerprint := snapshot.fingerprint), Found(r, false))) else None)
    case Project =>
      var Activity(job, Found(r, recovered)) := s.active.value;
      var projected := if job.local then {} else ShareIds(s.store.logs, job.provider, job.cycle, job.fingerprint);
      var streaming := !recovered || !QuotaBlocked(r);
      s.(active := Some(Activity(job, Writing(r, streaming, job.shares, projected, recovered))))
    case Write =>
      var Activity(job, Writing(r, streaming, todo, projected, recovered)) := s.active.value;
      var share := todo[0];
      State(
        if share in projected then s.store
        else s.store.(logs := s.store.logs + [LogFor(c, job, share, r, streaming)]),
        Some(Activity(job, s.active.value.phase.(
          todo := todo[1..],
          projected := if recovered then projected + {share} else projected))))
    case Finish => s.(active := None)
  }

  function Next(c: Context, s: State, e: Event): State { if Legal(c, s, e) then Do(c, s, e) else s }

  function Reached(c: Context, start: State, run: seq<Event>): State {
    if run == [] then start else Next(c, Reached(c, start, run[..|run| - 1]), run[|run| - 1])
  }

  // ------------------------------------------------------------- one accepted probe

  datatype Cycle = Cycle(source: string, fingerprint: string)

  /** The event is a probe that its activity accepts as the result of the cycle. */
  predicate Accepts(c: Context, s: State, e: Event, k: Cycle) {
    && e.Probe? && Legal(c, s, e) && e.recorded
    && s.active.value.job.cycle == k.source && s.active.value.job.fingerprint == k.fingerprint
    && Observed(c, s, s.active.value.job, e).fingerprint == k.fingerprint
  }

  /** Something is recorded that a check for the cycle would find. */
  predicate HasEvidence(c: Context, s: State, k: Cycle) {
    Existing(s.store, Provider(c.app, c.id, 0), k.source, k.fingerprint).Some?
  }

  lemma EvidenceIgnoresRevision(c: Context, s: State, p: Provider, k: Cycle)
    requires Of(p, c)
    ensures HasEvidence(c, s, k) <==> Existing(s.store, p, k.source, k.fingerprint).Some?
  {
    var q := Provider(c.app, c.id, 0);
    FoundExactlyWithEvidence(s.store, p, k.source, k.fingerprint);
    FoundExactlyWithEvidence(s.store, q, k.source, k.fingerprint);
    if NamedSlot(k.source).Some? {
      SameEarliest(s.store.logs, p, q, k.fingerprint, NamedSlot(k.source).value);
    }
  }

  lemma {:induction false} SameLatest(
    logs: seq<UsageLog>, p: Provider, q: Provider, source: string, fingerprint: string)
    requires p.app == q.app && p.id == q.id
    ensures Latest(logs, p, source, fingerprint) == Latest(logs, q, source, fingerprint)
  {
    if logs != [] {
      SameLatest(logs[..|logs| - 1], p, q, source, fingerprint);
    }
  }

  lemma {:induction false} SameEarliest(logs: seq<UsageLog>, p: Provider, q: Provider, fingerprint: string, slot: nat)
    requires p.app == q.app && p.id == q.id
    ensures Earliest(logs, p, fingerprint, slot) == Earliest(logs, q, fingerprint, slot)
  {
    if logs != [] {
      SameEarliest(logs[..|logs| - 1], p, q, fingerprint, slot);
    }
  }

  predicate Holds(s: State, k: Cycle) {
    && s.active.Some? && s.active.value.phase.Undecided?
    && s.active.value.job.cycle == k.source && s.active.value.job.fingerprint == k.fingerprint
  }

  predicate OwnActivity(c: Context, s: State) { s.active.Some? ==> Of(s.active.value.job.provider, c) }

  lemma {:induction false} ActivityIsOwn(c: Context, start: State, run: seq<Event>)
    requires OwnActivity(c, start)
    ensures OwnActivity(c, Reached(c, start, run))
  {
    if run != [] {
      ActivityIsOwn(c, start, run[..|run| - 1]);
    }
  }

  ghost predicate NoProbe(c: Context, start: State, run: seq<Event>, from: nat, k: Cycle)
    requires from <= |run|
  {
    forall i :: from <= i < |run| ==> !Accepts(c, Reached(c, start, run[..i]), run[i], k)
  }

  /** The step that leaves an activity about to probe is its check, or does not concern it. */
  lemma StepToUndecided(c: Context, s: State, e: Event, k: Cycle)
    requires OwnActivity(c, s) && Holds(Next(c, s, e), k)
    ensures !Accepts(c, s, e, k) && (Holds(s, k) || !HasEvidence(c, s, k))
  {
    if Legal(c, s, e) && e.Recover? {
      EvidenceIgnoresRevision(c, s, s.active.value.job.provider, k);
    }
  }

  /** An activity that is about to probe has checked, and no probe of the cycle was accepted since. */
  lemma {:induction false} CheckedBeforeProbing(c: Context, start: State, run: seq<Event>, k: Cycle) returns (t: nat)
    requires start.active == None
    requires Holds(Reached(c, start, run), k)
    ensures t <= |run| && !HasEvidence(c, Reached(c, start, run[..t]), k)
    ensures NoProbe(c, start, run, t, k)
  {
    var front, e := run[..|run| - 1], run[|run| - 1];
    var before := Reached(c, start, front);
    ActivityIsOwn(c, start, front);
    StepToUndecided(c, before, e, k);
    if Holds(before, k) {
      t := CheckedBeforeProbing(c, start, front, k);
      assert run[..t] == front[..t];
    } else {
      t := |front|;
    }
    NoProbeExtends(c, start, front, e, t, k);
    assert run == front + [e];
    assert run[..|front|] == front;
  }

  lemma {:induction false} NoProbeExtends(c: Context, start: State, front: seq<Event>, e: Event, t: nat, k: Cycle)
    requires t <= |front| && NoProbe(c, start, front, t, k) && !Accepts(c, Reached(c, start, front), e, k)
    ensures NoProbe(c, start, front + [e], t, k)
  {
    var run := front + [e];
    forall i | t <= i < |run| ensures !Accepts(c, Reached(c, start, run[..i]), run[i], k) {
      if i == |front| {
        assert run[..i] == front;
      } else {
        assert run[..i] == front[..i] && run[i] == front[i];
      }
    }
  }

  /** Between two accepted probes of one cycle there is a moment at which no evidence of the first was left. */
  lemma {:induction false} SecondProbeNeedsLostEvidence(
    c: Context, start: State, run: seq<Event>, k: Cycle, i: nat, j: nat)
    returns (t: nat)
    requires start.active == None && i < j < |run|
    requires Accepts(c, Reached(c, start, run[..i]), run[i], k)
    requires Accepts(c, Reached(c, start, run[..j]), run[j], k)
    ensures i < t <= j && !HasEvidence(c, Reached(c, start, run[..t]), k)
  {
    var front := run[..j];
    AcceptsMeansHolds(c, Reached(c, start, front), run[j], k);
    t := CheckedBeforeProbing(c, start, front, k);
    assert front[..t] == run[..t];
    assert front[i] == run[i] && front[..i] == run[..i];
  }

  lemma AcceptsMeansHolds(c: Context, s: State, e: Event, k: Cycle)
    requires Accepts(c, s, e, k)
    ensures Holds(s, k)
  {
  }

  /** How many probes of the cycle a run accepts. */
  function AcceptedCount(c: Context, start: State, run: seq<Event>, k: Cycle): nat {
    if run == [] then 0
    else
      var front := run[..|run| - 1];
      AcceptedCount(c, start, front, k) + if Accepts(c, Reached(c, start, front), run[|run| - 1], k) then 1 else 0
  }

  /** From the first accepted probe of the cycle on there is evidence of it after every event. */
  ghost predicate EvidenceKept(c: Context, start: State, run: seq<Event>, k: Cycle) {
    run == [] ||
    (&& EvidenceKept(c, start, run[..|run| - 1], k)
     && (AcceptedCount(c, start, run, k) > 0 ==> HasEvidence(c, Reached(c, start, run), k)))
  }

  lemma {:induction false} KeptInPrefix(c: Context, start: State, run: seq<Event>, t: nat, k: Cycle)
    requires t <= |run| && EvidenceKept(c, start, run, k)
    ensures EvidenceKept(c, start, run[..t], k)
  {
    if t == |run| {
      assert run[..t] == run;
    } else {
      KeptInPrefix(c, start, run[..|run| - 1], t, k);
      assert run[..|run| - 1][..t] == run[..t];
    }
  }

  lemma {:induction false} NoneAcceptedSince(c: Context, start: State, run: seq<Event>, t: nat, k: Cycle)
    requires t <= |run| && NoProbe(c, start, run, t, k)
    ensures AcceptedCount(c, start, run, k) == AcceptedCount(c, start, run[..t], k)
  {
    if t == |run| {
      assert run[..t] == run;
    } else {
      var front := run[..|run| - 1];
      assert forall i :: 0 <= i < |front| ==> front[..i] == run[..i] && front[i] == run[i];
      NoneAcceptedSince(c, start, front, t, k);
    }
  }

  /** While the evidence an accepted probe left is kept, it stays the only accepted probe of its cycle. */
  lemma {:induction false} AtMostOneProbeWhileKept(c: Context, start: State, run: seq<Event>, k: Cycle)
    requires start.active == None && EvidenceKept(c, start, run, k)
    ensures AcceptedCount(c, start, run, k) <= 1
  {
    if run != [] {
      var front := run[..|run| - 1];
      AtMostOneProbeWhileKept(c, start, front, k);
      if Accepts(c, Reached(c, start, front), run[|run| - 1], k) {
        var t := CheckedBeforeProbing(c, start, front, k);
        KeptInPrefix(c, start, front, t, k);
        NoneAcceptedSince(c, start, front, t, k);
      }
    }
  }

  /**
   * When nothing of the cycle is recorded yet, a batch's accepted probe leaves evidence exactly when no snapshot
   * stands against it.
   */
  lemma AcceptedBatchLeavesEvidence(c: Context, s: State, e: Event, k: Cycle)
    requires Accepts(c, s, e, k) && !s.active.value.job.local && !HasEvidence(c, s, k)
    ensures HasEvidence(c, Next(c, s, e), k) <==> !Superseded(s.store.snapshot, e.result, e.revision, e.fingerprint)
  {
    var p, store := Provider(c.app, c.id, 0), s.store;
    FoundExactlyWithEvidence(store, p, k.source, k.fingerprint);
    assert Superseded(store.snapshot, e.result, e.revision, e.fingerprint) ==> Next(c, s, e).store == store;
  }

  /** For the local scheduler it must also have tested within the slot it checked. */
  lemma AcceptedLocalLeavesEvidence(c: Context, s: State, e: Event, k: Cycle)
    requires Accepts(c, s, e, k) && s.active.value.job.local && !HasEvidence(c, s, k)
    requires NamedSlot(k.source).Some? && k.source != SCHEDULED
    ensures HasEvidence(c, Next(c, s, e), k) <==>
            && !Superseded(s.store.snapshot, e.result, e.revision, e.fingerprint)
            && Slot(TestedMs(e.result)) == NamedSlot(k.source).value
  {
    var p, store := Provider(c.app, c.id, 0), s.store;
    FoundExactlyWithEvidence(store, p, k.source, k.fingerprint);
    FoundExactlyWithEvidence(Next(c, s, e).store, p, k.source, k.fingerprint);
    assert Superseded(store.snapshot, e.result, e.revision, e.fingerprint) ==> Next(c, s, e).store == store;
  }
}
