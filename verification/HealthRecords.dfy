/** Health results, the usage logs and snapshots they leave, and what is recovered from those. */
module HealthRecords {
  import opened Prelude
  import opened Text
  import opened HealthSlots

  // -------------------------------------------------------------------- the records

  datatype Status = Operational | Degraded | Failed

  /** The token counts of a check result are always zero and are not carried. */
  datatype CheckResult = CheckResult(
    status: Status, success: bool, revision: Option<nat>, message: string, responseTime: Option<U64>,
    httpStatus: Option<nat>, model: string, testedAt: I64, retries: U32, category: Option<string>)

  datatype Evidence = Evidence(status: string, httpStatus: Option<nat>)

  datatype UsageLog = UsageLog(
    app: string, provider: string, statusCode: nat, duration: nat, model: Option<string>,
    requestedModel: Option<string>, created: nat, started: nat, share: Option<string>, source: Option<string>,
    healthCheck: bool, streaming: bool, streamStatus: Option<string>, error: Option<string>,
    failureKind: Option<string>, attempts: U32, fingerprint: Option<string>, evidence: Option<Evidence>)

  datatype SnapshotStatus = Unknown | Healthy | Slow | Unhealthy

  datatype Snapshot = Snapshot(
    revision: nat, fingerprint: string, status: SnapshotStatus, checkedAt: nat, staleAt: nat, source: string,
    statusCode: Option<nat>, latency: Option<U64>, model: Option<string>, category: Option<string>,
    error: Option<string>, failures: U32, confirmationPending: bool)

  datatype Provider = Provider(app: string, id: string, revision: nat)

  /** The usage store, with the snapshot of the one Provider at hand. */
  datatype Store = Store(logs: seq<UsageLog>, snapshot: Option<Snapshot>)

  const QUOTA_BLOCKED: string := "quotaBlocked"

  // ------------------------------------------------------------------ writing a log

  function StatusText(s: Status): string {
    match s
    case Operational => "operational"
    case Degraded => "degraded"
    case Failed => "failed"
  }

  function Or<T>(o: Option<T>, default: T): T { if o.Some? then o.value else default }

  /** Milliseconds of a test time; a time before the epoch counts as the epoch. */
  function TestedMs(r: CheckResult): nat { Max(0, r.testedAt) * 1000 }

  function HealthUsageLog(
    redact: string -> string, share: string, p: Provider, r: CheckResult, source: string, streaming: bool,
    fingerprint: string): UsageLog
  {
    UsageLog(
      p.app, p.id, Or(r.httpStatus, 599), Or(r.responseTime, 0), Some(r.model), Some(r.model),
      TestedMs(r), SatSub(TestedMs(r), Or(r.responseTime, 0)), Some(share), Some(source), true, streaming,
      if streaming then Some(if r.success then "completed" else "failed") else None,
      if r.success then None else Some(redact(r.message)),
      r.category, Max(1, Min(U32_MAX, r.retries + 1)), Some(fingerprint),
      Some(Evidence(StatusText(r.status), r.httpStatus)))
  }

  // --------------------------------------------------------------- reading a log back

  function SecondsFromMs(ms: nat): I64 { Min(ms / 1000, I64_MAX) }

  function StatusOf(text: string): Option<Status> {
    if text == "operational" then Some(Operational)
    else if text == "degraded" then Some(Degraded)
    else if text == "failed" then Some(Failed)
    else None
  }

  lemma StatusTextReadsBack(s: Status)
    ensures StatusOf(StatusText(s)) == Some(s)
  {
    assert "operational"[0] == 'o' && "degraded"[0] == 'd' && "failed"[0] == 'f';
  }

  const SUCCEEDED: string := "Check succeeded"
  const UNEXPLAINED: string := "Check failed"

  function ResultFrom(l: UsageLog, p: Provider, status: Status, httpStatus: Option<nat>): CheckResult {
    var success := status != Failed;
    CheckResult(
      status, success, Some(p.revision),
      if success then SUCCEEDED else Or(l.error, UNEXPLAINED),
      Some(Min(l.duration, U64_MAX)), httpStatus,
      Or(l.requestedModel, Or(l.model, p.app)),
      SecondsFromMs(l.created), SatSub(l.attempts, 1), l.failureKind)
  }

  function ExactResult(l: UsageLog, p: Provider): Option<CheckResult> {
    if l.evidence == None || StatusOf(l.evidence.value.status) == None then None
    else Some(ResultFrom(l, p, StatusOf(l.evidence.value.status).value, l.evidence.value.httpStatus))
  }

  /** The reading of a log that carries no usable evidence. */
  function PlainResult(l: UsageLog, p: Provider): CheckResult {
    var success := 200 <= l.statusCode < 400 && (!l.streaming || l.streamStatus == Some("completed"));
    ResultFrom(l, p, if success then Operational else Failed, Some(l.statusCode))
  }

  function SnapshotResult(s: Snapshot, latest: Option<UsageLog>, p: Provider): CheckResult {
    var success := s.status == Healthy || s.status == Slow;
    CheckResult(
      if s.status == Healthy then Operational else if s.status == Slow then Degraded else Failed,
      success, Some(s.revision),
      if success then SUCCEEDED else Or(s.error, UNEXPLAINED),
      s.latency, s.statusCode, Or(s.model, p.app), SecondsFromMs(s.checkedAt),
      if latest.Some? then SatSub(latest.value.attempts, 1) else 0, s.category)
  }

  // --------------------------------------------------------- write, then recover

  ghost predicate Idempotent(redact: string -> string) {
    forall m :: redact(redact(m)) == redact(m)
  }

  /** A result whose two accounts of success agree, as every probe and every recovery builds it. */
  predicate Consistent(r: CheckResult) { r.success == (r.status != Failed) }

  /** A result as a log gives it back. */
  function Replayed(redact: string -> string, r: CheckResult, p: Provider): CheckResult {
    r.(success := r.status != Failed,
       revision := Some(p.revision),
       message := if r.status != Failed then SUCCEEDED else if r.success then UNEXPLAINED else redact(r.message),
       responseTime := Some(Or(r.responseTime, 0)),
       testedAt := Max(0, r.testedAt),
       retries := Min(r.retries, U32_MAX - 1))
  }

  /**
   * Writing a result to a log and recovering it keeps status, HTTP status, model and category as they were,
   * the test time from the epoch on, and changes the rest only as `Replayed` says.
   */
  lemma WriteThenRecover(
    redact: string -> string, share: string, p: Provider, r: CheckResult, source: string, streaming: bool,
    fingerprint: string)
    ensures ExactResult(HealthUsageLog(redact, share, p, r, source, streaming, fingerprint), p)
         == Some(Replayed(redact, r, p))
  {
    StatusTextReadsBack(r.status);
  }

  predicate AcceptedStatus(code: nat) { 200 <= code < 400 }

  /**
   * A reader that ignores the evidence sees success or failure as the result has it, exactly when a success came with
   * an accepted status and a failure that was not streamed came without one; a missing status counts as not accepted.
   * The log begins the response time before the test time, though not before the epoch.
   */
  lemma PlainReadingAgrees(
    redact: string -> string, share: string, p: Provider, r: CheckResult, source: string, streaming: bool,
    fingerprint: string)
    ensures var l := HealthUsageLog(redact, share, p, r, source, streaming, fingerprint);
            var accepted := r.httpStatus.Some? && AcceptedStatus(r.httpStatus.value);
            && (PlainResult(l, p).success == r.success <==> if r.success then accepted else streaming || !accepted)
            && l.created - l.started == Min(l.duration, l.created)
  {
    assert "completed"[0] == 'c' && "failed"[0] == 'f';
  }

  /**
   * A replay of a replay is the replay, exactly when it is not a contradictory result (successful, yet of
   * status failed) whose substitute message redaction would rewrite.
   */
  lemma ReplayIsIdempotent(redact: string -> string, r: CheckResult, p: Provider)
    requires Idempotent(redact)
    ensures Replayed(redact, Replayed(redact, r, p), p) == Replayed(redact, r, p)
            <==> (r.success && r.status == Failed ==> redact(UNEXPLAINED) == UNEXPLAINED)
  {
    assert redact(redact(r.message)) == redact(r.message);
  }

  predicate QuotaBlocked(r: CheckResult) { r.category == Some(QUOTA_BLOCKED) }

  /** Logging a replayed result gives the very log it was recovered from, up to the share it is for. */
  lemma ReplayedLogIsTheSame(
    redact: string -> string, share: string, other: string, p: Provider, r: CheckResult, source: string,
    streaming: bool, fingerprint: string)
    requires Idempotent(redact) && Consistent(r)
    ensures HealthUsageLog(redact, other, p, Replayed(redact, r, p), source, streaming, fingerprint)
         == HealthUsageLog(redact, share, p, r, source, streaming, fingerprint).(share := Some(other))
    ensures Consistent(Replayed(redact, r, p)) && QuotaBlocked(Replayed(redact, r, p)) == QuotaBlocked(r)
  {
    assert redact(redact(r.message)) == redact(r.message);
  }

  // ----------------------------------------------------------- finding a cycle's result

  const SCHEDULED: string := "cc-switch-scheduled"

  predicate Matches(l: UsageLog, p: Provider, source: string, fingerprint: string) {
    && l.healthCheck && l.app == p.app && l.provider == p.id
    && l.source == Some(source) && l.fingerprint == Some(fingerprint)
  }

  /** The matching log created last; the last of several, as `max_by_key` gives it. */
  function Latest(logs: seq<UsageLog>, p: Provider, source: string, fingerprint: string): (r: Option<UsageLog>)
    ensures r.Some? ==> r.value in logs && Matches(r.value, p, source, fingerprint)
    ensures r.Some? ==> forall l :: l in logs && Matches(l, p, source, fingerprint) ==> l.created <= r.value.created
    ensures r == None ==> forall l :: l in logs ==> !Matches(l, p, source, fingerprint)
  {
    if logs == [] then None
    else
      var last := logs[|logs| - 1];
      var before := Latest(logs[..|logs| - 1], p, source, fingerprint);
      if !Matches(last, p, source, fingerprint) then before
      else if before.Some? && before.value.created > last.created then before
      else Some(last)
  }

  predicate InSlot(l: UsageLog, p: Provider, fingerprint: string, slot: nat) {
    Matches(l, p, SCHEDULED, fingerprint) && Slot(l.created) == slot
  }

  /** The scheduled log of the slot created first; the first of several. */
  function Earliest(logs: seq<UsageLog>, p: Provider, fingerprint: string, slot: nat): (r: Option<UsageLog>)
    ensures r.Some? ==> r.value in logs && InSlot(r.value, p, fingerprint, slot)
    ensures r.Some? ==> forall l :: l in logs && InSlot(l, p, fingerprint, slot) ==> r.value.created <= l.created
    ensures r == None ==> forall l :: l in logs ==> !InSlot(l, p, fingerprint, slot)
  {
    if logs == [] then None
    else
      var last := logs[|logs| - 1];
      var before := Earliest(logs[..|logs| - 1], p, fingerprint, slot);
      if !InSlot(last, p, fingerprint, slot) then before
      else if before.Some? && before.value.created <= last.created then before
      else Some(last)
  }

  /** Of several matching logs created last, the one that was stored last is chosen. */
  lemma {:induction false} LatestIsTheLast(logs: seq<UsageLog>, p: Provider, source: string, fingerprint: string)
    returns (i: nat)
    requires Latest(logs, p, source, fingerprint).Some?
    ensures i < |logs| && Latest(logs, p, source, fingerprint) == Some(logs[i])
    ensures forall j :: i < j < |logs| && Matches(logs[j], p, source, fingerprint) ==> logs[j].created < logs[i].created
  {
    var front, last := logs[..|logs| - 1], logs[|logs| - 1];
    if Latest(logs, p, source, fingerprint) == Some(last) && Matches(last, p, source, fingerprint) {
      i := |front|;
    } else {
      i := LatestIsTheLast(front, p, source, fingerprint);
      assert forall j :: 0 <= j < |front| ==> front[j] == logs[j];
    }
  }

  /** Of several scheduled logs of the slot created first, the one that was stored first is chosen. */
  lemma {:induction false} EarliestIsTheFirst(logs: seq<UsageLog>, p: Provider, fingerprint: string, slot: nat)
    returns (i: nat)
    requires Earliest(logs, p, fingerprint, slot).Some?
    ensures i < |logs| && Earliest(logs, p, fingerprint, slot) == Some(logs[i])
    ensures forall j :: 0 <= j < i && InSlot(logs[j], p, fingerprint, slot) ==> logs[i].created < logs[j].created
  {
    var front, last := logs[..|logs| - 1], logs[|logs| - 1];
    var before := Earliest(front, p, fingerprint, slot);
    if before.Some? && (!InSlot(last, p, fingerprint, slot) || before.value.created <= last.created) {
      i := EarliestIsTheFirst(front, p, fingerprint, slot);
    } else {
      i := |front|;
    }
    assert forall j :: 0 <= j < |front| ==> front[j] == logs[j];
  }

  /**
   * A locally scheduled log serves a cycle exactly when its own time gives that cycle's source text and the
   * fingerprint matches.
   */
  lemma {:induction false} EligibleExactlyWhenSameSource(
    l: UsageLog, p: Provider, fingerprint: string, source: string, slot: nat)
    requires NamedSlot(source) == Some(slot) && Plain(source[|SLOT_PREFIX|..]) && l.created <= U128_MAX
    ensures InSlot(l, p, fingerprint, slot) <==>
            Matches(l, p, SCHEDULED, fingerprint) && RouterCycleSource(l.created) == source
  {
    InSlotExactlyWhenSameSource(source, l.created);
  }

  predicate SnapshotMatches(s: Option<Snapshot>, source: string, fingerprint: string) {
    s.Some? && s.value.source == source && s.value.fingerprint == fingerprint
  }

  function Exact(l: Option<UsageLog>, p: Provider): Option<CheckResult> {
    if l.Some? then ExactResult(l.value, p) else None
  }

  function FromUsage(store: Store, p: Provider, source: string, fingerprint: string): Option<CheckResult> {
    var log := Latest(store.logs, p, source, fingerprint);
    if Exact(log, p).Some? then Exact(log, p)
    else if SnapshotMatches(store.snapshot, source, fingerprint) then Some(SnapshotResult(store.snapshot.value, log, p))
    else if log.Some? then Some(PlainResult(log.value, p))
    else None
  }

  function FromLocal(store: Store, p: Provider, slot: nat, fingerprint: string): Option<CheckResult> {
    var log := Earliest(store.logs, p, fingerprint, slot);
    if Exact(log, p).Some? then Exact(log, p)
    else if SnapshotMatches(store.snapshot, SCHEDULED, fingerprint) && Slot(store.snapshot.value.checkedAt) == slot
    then FromUsage(store, p, SCHEDULED, fingerprint)
    else None
  }

  function Existing(store: Store, p: Provider, source: string, fingerprint: string): Option<CheckResult> {
    var direct := FromUsage(store, p, source, fingerprint);
    if direct.Some? then direct
    else if NamedSlot(source) == None then None
    else FromLocal(store, p, NamedSlot(source).value, fingerprint)
  }

  /** A log or snapshot of the cycle itself. */
  ghost predicate OwnEvidence(store: Store, p: Provider, source: string, fingerprint: string) {
    || SnapshotMatches(store.snapshot, source, fingerprint)
    || exists l :: l in store.logs && Matches(l, p, source, fingerprint)
  }

  /** What the local scheduler left in the slot, that a cycle of that slot may take over. */
  ghost predicate LocalEvidence(store: Store, p: Provider, slot: nat, fingerprint: string) {
    || (SnapshotMatches(store.snapshot, SCHEDULED, fingerprint) && Slot(store.snapshot.value.checkedAt) == slot)
    || Exact(Earliest(store.logs, p, fingerprint, slot), p).Some?
  }

  /** A result is found exactly when there is evidence to find it in. */
  lemma FoundExactlyWithEvidence(store: Store, p: Provider, source: string, fingerprint: string)
    ensures Existing(store, p, source, fingerprint).Some? <==>
            || OwnEvidence(store, p, source, fingerprint)
            || (NamedSlot(source).Some? && LocalEvidence(store, p, NamedSlot(source).value, fingerprint))
  {
    var log := Latest(store.logs, p, source, fingerprint);
    assert log.Some? <==> exists l :: l in store.logs && Matches(l, p, source, fingerprint);
  }

  /** Whatever it is found in, a recovered result is consistent. */
  lemma FoundIsConsistent(store: Store, p: Provider, source: string, fingerprint: string)
    ensures Existing(store, p, source, fingerprint).Some? ==>
              Consistent(Existing(store, p, source, fingerprint).value)
  {
  }

  // -------------------------------------------------------------- recording a snapshot

  const STALE_AFTER_MS: nat := 65 * 60 * 1000
  const CONFIRM_AFTER_MS: nat := 60 * 1000

  function SnapshotStatusOf(s: Status): SnapshotStatus {
    match s
    case Operational => Healthy
    case Degraded => Slow
    case Failed => Unhealthy
  }

  predicate Transient(r: CheckResult) {
    !r.success && r.category.Some?
    && r.category.value in ["network", "timeout", "rateLimit", "upstream", "streamIncomplete"]
  }

  /** A newer snapshot, or a first failure not yet due for confirmation, stands against the observation. */
  predicate Superseded(existing: Option<Snapshot>, r: CheckResult, revision: nat, fingerprint: string) {
    existing.Some? &&
    var s := existing.value;
    || s.checkedAt > TestedMs(r)
    || (&& r.status == Failed && Transient(r) && s.confirmationPending
        && s.revision == revision && s.fingerprint == fingerprint
        && s.staleAt > TestedMs(r) && TestedMs(r) < s.checkedAt + CONFIRM_AFTER_MS)
  }

  function FailuresBefore(existing: Option<Snapshot>, r: CheckResult, revision: nat, fingerprint: string): U32 {
    if existing.Some? && existing.value.revision == revision && existing.value.fingerprint == fingerprint
       && existing.value.staleAt > TestedMs(r)
    then existing.value.failures else 0
  }

  /** `ProviderHealthStore::record` on the observation of a probe. */
  function Recorded(
    redact: string -> string, existing: Option<Snapshot>, r: CheckResult, revision: nat,
    fingerprint: string, source: string): Snapshot
  {
    if Superseded(existing, r, revision, fingerprint) then existing.value
    else
      var failures := if r.status != Failed then 0
                      else Min(U32_MAX, FailuresBefore(existing, r, revision, fingerprint) + 1);
      Snapshot(
        revision, fingerprint, SnapshotStatusOf(r.status), TestedMs(r), TestedMs(r) + STALE_AFTER_MS, source,
        r.httpStatus, r.responseTime, if Trim(r.model) == "" then None else Some(r.model), r.category,
        if r.success then None else Some(redact(r.message)), failures,
        r.status == Failed && Transient(r) && failures < 2)
  }

  /**
   * Recording leaves the cycle's own snapshot exactly when the observation is not superseded, or what supersedes
   * it is of the same cycle.
   */
  lemma RecordingLeavesEvidence(
    redact: string -> string, existing: Option<Snapshot>, r: CheckResult, revision: nat,
    fingerprint: string, source: string)
    ensures SnapshotMatches(Some(Recorded(redact, existing, r, revision, fingerprint, source)), source, fingerprint)
            <==> (Superseded(existing, r, revision, fingerprint) ==> SnapshotMatches(existing, source, fingerprint))
  {
  }

  /** A snapshot keeps what a log keeps of the result, save the retry count and a blank model. */
  lemma RecordThenRecover(
    redact: string -> string, existing: Option<Snapshot>, p: Provider, r: CheckResult, fingerprint: string,
    source: string)
    requires Consistent(r) && !Superseded(existing, r, p.revision, fingerprint)
    ensures SnapshotResult(Recorded(redact, existing, r, p.revision, fingerprint, source), None, p)
         == Replayed(redact, r, p).(responseTime := r.responseTime, retries := 0,
                                    model := if Trim(r.model) == "" then p.app else r.model)
  {
  }
}
