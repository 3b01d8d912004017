/** Which logs and snapshots a check of a cycle takes into account, and which it does not. */
module HealthRecovery {
  import opened Prelude
  import opened HealthSlots
  import opened HealthRecords

  /** The log is a health check of this Provider and runtime. */
  predicate About(l: UsageLog, p: Provider, fingerprint: string) {
    l.healthCheck && l.app == p.app && l.provider == p.id && l.fingerprint == Some(fingerprint)
  }

  /** The log cannot concern the cycle: another Provider or runtime, another source, or no health check at all. */
  predicate Foreign(l: UsageLog, p: Provider, source: string, fingerprint: string) {
    !About(l, p, fingerprint) || (l.source != Some(source) && l.source != Some("cc-switch-scheduled"))
  }

  lemma {:induction false} LatestIgnores(
    a: seq<UsageLog>, l: UsageLog, b: seq<UsageLog>, p: Provider, source: string, fingerprint: string)
    requires !Matches(l, p, source, fingerprint)
    ensures Latest(a + [l] + b, p, source, fingerprint) == Latest(a + b, p, source, fingerprint)
  {
    if b == [] {
      assert a + [l] + b == a + [l] && a + b == a && (a + [l])[..|a|] == a;
    } else {
      var front, last := b[..|b| - 1], b[|b| - 1];
      LatestIgnores(a, l, front, p, source, fingerprint);
      assert (a + [l] + b)[..|a + [l] + b| - 1] == a + [l] + front;
      assert (a + b)[..|a + b| - 1] == a + front;
    }
  }

  lemma {:induction false} EarliestIgnores(
    a: seq<UsageLog>, l: UsageLog, b: seq<UsageLog>, p: Provider, fingerprint: string, slot: nat)
    requires !InSlot(l, p, fingerprint, slot)
    ensures Earliest(a + [l] + b, p, fingerprint, slot) == Earliest(a + b, p, fingerprint, slot)
  {
    if b == [] {
      assert a + [l] + b == a + [l] && a + b == a && (a + [l])[..|a|] == a;
    } else {
      var front, last := b[..|b| - 1], b[|b| - 1];
      EarliestIgnores(a, l, front, p, fingerprint, slot);
      assert (a + [l] + b)[..|a + [l] + b| - 1] == a + [l] + front;
      assert (a + b)[..|a + b| - 1] == a + front;
    }
  }

  lemma {:induction false} DirectIgnores(
    a: seq<UsageLog>, l: UsageLog, b: seq<UsageLog>, snapshot: Option<Snapshot>, p: Provider, source: string,
    fingerprint: string)
    requires !Matches(l, p, source, fingerprint)
    ensures FromUsage(Store(a + [l] + b, snapshot), p, source, fingerprint)
         == FromUsage(Store(a + b, snapshot), p, source, fingerprint)
  {
    LatestIgnores(a, l, b, p, source, fingerprint);
  }

  lemma {:induction false} LocalIgnores(
    a: seq<UsageLog>, l: UsageLog, b: seq<UsageLog>, snapshot: Option<Snapshot>, p: Provider, slot: nat,
    fingerprint: string)
    requires !Matches(l, p, SCHEDULED, fingerprint)
    ensures FromLocal(Store(a + [l] + b, snapshot), p, slot, fingerprint)
         == FromLocal(Store(a + b, snapshot), p, slot, fingerprint)
  {
    EarliestIgnores(a, l, b, p, fingerprint, slot);
    DirectIgnores(a, l, b, snapshot, p, SCHEDULED, fingerprint);
  }

  /** A foreign log, wherever it stands, changes nothing of what is recovered. */
  lemma {:induction false} ForeignLogsDoNotMatter(
    a: seq<UsageLog>, l: UsageLog, b: seq<UsageLog>, snapshot: Option<Snapshot>, p: Provider, source: string,
    fingerprint: string)
    requires Foreign(l, p, source, fingerprint)
    ensures Existing(Store(a + [l] + b, snapshot), p, source, fingerprint)
         == Existing(Store(a + b, snapshot), p, source, fingerprint)
  {
    DirectIgnores(a, l, b, snapshot, p, source, fingerprint);
    if NamedSlot(source).Some? {
      LocalIgnores(a, l, b, snapshot, p, NamedSlot(source).value, fingerprint);
    }
  }

  /** The instant lies in the half hour that begins at the slot's second. */
  predicate Within(slot: nat, at: nat) { slot % 1800 == 0 && slot * 1000 <= at < (slot + 1800) * 1000 }

  /** Which single log serves a cycle: one of the cycle, or a readable one the local scheduler made in its half hour. */
  lemma {:induction false} OneLogServesExactly(l: UsageLog, p: Provider, source: string, fingerprint: string)
    ensures Existing(Store([l], None), p, source, fingerprint).Some? <==>
            && About(l, p, fingerprint)
            && (|| l.source == Some(source)
                || (&& l.source == Some("cc-switch-scheduled")
                    && NamedSlot(source).Some? && Within(NamedSlot(source).value, l.created)
                    && Readable(l)))
  {
    assert [l][..0] == [];
    if NamedSlot(source).Some? {
      ExactlyOneSlot(l.created, NamedSlot(source).value);
    }
  }

  /** Which snapshot serves a cycle that has no logs. */
  lemma {:induction false} SnapshotServesExactly(
    snapshot: Option<Snapshot>, p: Provider, source: string, fingerprint: string)
    ensures Existing(Store([], snapshot), p, source, fingerprint).Some? <==>
            && snapshot.Some? && snapshot.value.fingerprint == fingerprint
            && (|| snapshot.value.source == source
                || (&& snapshot.value.source == "cc-switch-scheduled"
                    && NamedSlot(source).Some? && Within(NamedSlot(source).value, snapshot.value.checkedAt)))
  {
    if snapshot.Some? && NamedSlot(source).Some? {
      ExactlyOneSlot(snapshot.value.checkedAt, NamedSlot(source).value);
    }
  }

  /** What a log tells a reader of its plain fields: 599 for no answer, and whether the stream came to its end. */
  lemma PlainFields(
    redact: string -> string, share: string, p: Provider, r: CheckResult, source: string, streaming: bool,
    fingerprint: string)
    ensures var l := HealthUsageLog(redact, share, p, r, source, streaming, fingerprint);
            && l.statusCode == (if r.httpStatus.Some? then r.httpStatus.value else 599)
            && (l.streamStatus == Some("completed") <==> streaming && r.success)
            && (l.streamStatus == Some("failed") <==> streaming && !r.success)
            && (l.streamStatus == None <==> !streaming)
            && About(l, p, fingerprint) && l.source == Some(source) && l.share == Some(share)
  {
    assert "completed"[0] == 'c' && "failed"[0] == 'f';
  }

  /** The log carries evidence of a status by one of its three names. */
  predicate Readable(l: UsageLog) {
    l.evidence.Some? && l.evidence.value.status in {"operational", "degraded", "failed"}
  }

  /**
   * What is told of a cycle with one log: what the log's evidence says when it is readable, else what the snapshot of
   * the cycle says, else what the plain fields of the log say; always with the tries of the log.
   */
  lemma {:induction false} OneLogTells(
    l: UsageLog, snapshot: Option<Snapshot>, p: Provider, source: string, fingerprint: string)
    requires About(l, p, fingerprint) && l.source == Some(source)
    ensures var r := Existing(Store([l], snapshot), p, source, fingerprint);
            var bySnapshot := snapshot.Some? && snapshot.value.fingerprint == fingerprint
                              && snapshot.value.source == source;
            && r.Some? && r.value.retries == (if l.attempts == 0 then 0 else l.attempts - 1)
            && (if Readable(l) then TellsEvidence(r.value, l)
                else if bySnapshot then TellsSnapshot(r.value, snapshot.value)
                else TellsPlainly(r.value, l))
  {
    assert [l][..0] == [];
  }

  predicate TellsEvidence(r: CheckResult, l: UsageLog)
    requires Readable(l)
  {
    var text := l.evidence.value.status;
    && (r.status == Operational <==> text == "operational") && (r.status == Degraded <==> text == "degraded")
    && (r.success <==> text != "failed") && r.httpStatus == l.evidence.value.httpStatus
    && r.testedAt == Min(l.created / 1000, 0x7FFF_FFFF_FFFF_FFFF) && r.category == l.failureKind
    && (!r.success ==> r.message == if l.error.Some? then l.error.value else "Check failed")
  }

  predicate TellsSnapshot(r: CheckResult, s: Snapshot) {
    && (r.status == Operational <==> s.status == Healthy) && (r.status == Degraded <==> s.status == Slow)
    && (r.success <==> s.status in {Healthy, Slow}) && r.httpStatus == s.statusCode
    && r.testedAt == Min(s.checkedAt / 1000, 0x7FFF_FFFF_FFFF_FFFF) && r.category == s.category
    && r.revision == Some(s.revision) && r.responseTime == s.latency
    && (!r.success ==> r.message == if s.error.Some? then s.error.value else "Check failed")
  }

  predicate TellsPlainly(r: CheckResult, l: UsageLog) {
    && r.success == (200 <= l.statusCode <= 399 && (l.streaming ==> l.streamStatus == Some("completed")))
    && r.status == (if r.success then Operational else Failed) && r.httpStatus == Some(l.statusCode)
    && r.testedAt == Min(l.created / 1000, 0x7FFF_FFFF_FFFF_FFFF) && r.category == l.failureKind
    && (!r.success ==> r.message == if l.error.Some? then l.error.value else "Check failed")
  }
}
