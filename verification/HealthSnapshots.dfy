/** What a Provider's health snapshot is after any sequence of probes, in plain numbers. */
module HealthSnapshots {
  import opened Prelude
  import opened Text
  import opened HealthRecords

  // ---------------------------------------------------------------- one observation

  /** A probe's result, as it is recorded. */
  datatype Observation = Observation(result: CheckResult, revision: nat, fingerprint: string, source: string)

  /** A failure of a kind that a second try may cure. */
  predicate MayPass(r: CheckResult) {
    && r.status == Failed && !r.success
    && r.category in {Some("network"), Some("timeout"), Some("rateLimit"), Some("upstream"), Some("streamIncomplete")}
  }

  /** The time of a test in milliseconds; one before the epoch counts as the epoch. */
  function At(r: CheckResult): nat { if r.testedAt < 0 then 0 else r.testedAt * 1000 }

  /** The snapshot counts towards the observation: same revision, same runtime, less than 65 minutes old. */
  predicate StillCounts(s: Snapshot, o: Observation) {
    s.revision == o.revision && s.fingerprint == o.fingerprint && s.staleAt > At(o.result)
  }

  /** The snapshot stands: it is newer, or it is a pending failure and the new one comes within a minute of it. */
  predicate Stands(s: Snapshot, o: Observation) {
    || s.checkedAt > At(o.result)
    || (MayPass(o.result) && s.confirmationPending && StillCounts(s, o) && At(o.result) < s.checkedAt + 60_000)
  }

  function Record(redact: string -> string, existing: Option<Snapshot>, o: Observation): Snapshot {
    Recorded(redact, existing, o.result, o.revision, o.fingerprint, o.source)
  }

  /** The snapshot tells the observation. */
  predicate Tells(redact: string -> string, s: Snapshot, o: Observation) {
    var r := o.result;
    && s.revision == o.revision && s.fingerprint == o.fingerprint && s.source == o.source
    && s.status == (if r.status == Operational then Healthy else if r.status == Degraded then Slow else Unhealthy)
    && s.checkedAt == At(r) && s.staleAt == At(r) + 3_900_000
    && s.statusCode == r.httpStatus && s.latency == r.responseTime && s.category == r.category
    && s.model == (if Trim(r.model) == "" then None else Some(r.model))
    && s.error == (if r.success then None else Some(redact(r.message)))
  }

  lemma FiveCategories(r: CheckResult)
    ensures MayPass(r) <==> r.status == Failed && Transient(r)
  {
  }

  lemma StandsExactly(s: Snapshot, o: Observation)
    ensures Stands(s, o) <==> Superseded(Some(s), o.result, o.revision, o.fingerprint)
  {
    FiveCategories(o.result);
  }

  /** Recording keeps the snapshot there is exactly when it stands; otherwise the new one tells the observation. */
  lemma RecordExactly(redact: string -> string, existing: Option<Snapshot>, o: Observation)
    ensures var after := Record(redact, existing, o);
            if existing.Some? && Stands(existing.value, o) then after == existing.value else Tells(redact, after, o)
  {
    if existing.Some? {
      StandsExactly(existing.value, o);
    }
  }

  /**
   * The two cases exclude each other but for a repetition: recording gives back the snapshot there is if and only if
   * that one stands, or it tells the very observation and is left as it would be written.
   */
  lemma KeptExactly(redact: string -> string, s: Snapshot, o: Observation)
    ensures Record(redact, Some(s), o) == s <==>
            Stands(s, o) || (Tells(redact, s, o) && CountsTheSame(s, o))
  {
    StandsExactly(s, o);
    FiveCategories(o.result);
  }

  /** The failure count and the pending mark that the observation would be written with are those already there. */
  predicate CountsTheSame(s: Snapshot, o: Observation) {
    var failures := if o.result.status != Failed then 0
                    else Min(0xFFFF_FFFF, (if StillCounts(s, o) then s.failures else 0) + 1);
    s.failures == failures && s.confirmationPending == (MayPass(o.result) && failures < 2)
  }

  /** How failures are counted, and when one is pending, of a snapshot that was written anew. */
  lemma CountsExactly(redact: string -> string, existing: Option<Snapshot>, o: Observation)
    requires existing.Some? ==> !Stands(existing.value, o)
    ensures var after := Record(redact, existing, o);
            var before := if existing.Some? && StillCounts(existing.value, o) then existing.value.failures else 0;
            && after.failures == (if o.result.status != Failed then 0 else Min(0xFFFF_FFFF, before + 1))
            && after.confirmationPending == (MayPass(o.result) && before == 0)
  {
    if existing.Some? {
      StandsExactly(existing.value, o);
    }
    FiveCategories(o.result);
  }

  // -------------------------------------------------------------------- sequences

  /** The snapshot after a sequence of observations. */
  function After(redact: string -> string, existing: Option<Snapshot>, seen: seq<Observation>): Option<Snapshot> {
    if seen == [] then existing
    else Some(Record(redact, After(redact, existing, seen[..|seen| - 1]), seen[|seen| - 1]))
  }

  /** Over any sequence of observations, in whatever order they arrive, the time of the snapshot never goes down. */
  lemma {:induction false} CheckedNeverGoesDown(
    redact: string -> string, existing: Option<Snapshot>, seen: seq<Observation>, i: nat)
    requires i <= |seen| && After(redact, existing, seen[..i]).Some?
    ensures var early, late := After(redact, existing, seen[..i]), After(redact, existing, seen);
            late.Some? && early.value.checkedAt <= late.value.checkedAt
  {
    if i == |seen| {
      assert seen[..i] == seen;
    } else {
      var front := seen[..|seen| - 1];
      assert front[..i] == seen[..i];
      CheckedNeverGoesDown(redact, existing, front, i);
      var s := After(redact, existing, front).value;
      RecordExactly(redact, Some(s), seen[|seen| - 1]);
    }
  }

  /** So a late success or failure never overwrites what a newer test found. */
  lemma {:induction false} LateTestIsIgnored(redact: string -> string, s: Snapshot, o: Observation)
    requires At(o.result) < s.checkedAt
    ensures Record(redact, Some(s), o) == s
  {
    RecordExactly(redact, Some(s), o);
  }

  /**
   * The confirmation of a failure. A first failure that may pass is pending. Of a second one of the same runtime and
   * revision: within a minute it changes nothing; from a minute on it takes the first one's place and is confirmed;
   * after 65 minutes it is a first one again.
   */
  lemma {:induction false} SecondFailureConfirms(
    redact: string -> string, existing: Option<Snapshot>, first: Observation, second: Observation)
    requires existing.Some? ==> !Stands(existing.value, first)
    requires existing.Some? ==> !StillCounts(existing.value, first) || existing.value.failures == 0
    requires MayPass(first.result) && MayPass(second.result) && At(first.result) <= At(second.result)
    requires first.revision == second.revision && first.fingerprint == second.fingerprint
    ensures var one, two := After(redact, existing, [first]), After(redact, existing, [first, second]);
            var later := At(second.result) - At(first.result);
            && one.Some? && two.Some? && one.value.confirmationPending && one.value.checkedAt == At(first.result)
            && (later < 60_000 ==> two == one)
            && (later >= 60_000 ==> Tells(redact, two.value, second))
            && (60_000 <= later < 3_900_000 ==> two.value.failures == 2 && !two.value.confirmationPending)
            && (later >= 3_900_000 ==> two.value.failures == 1 && two.value.confirmationPending)
  {
    assert [first][..0] == [] && [first, second][..1] == [first];
    RecordExactly(redact, existing, first);
    CountsExactly(redact, existing, first);
    var s := Record(redact, existing, first);
    RecordExactly(redact, Some(s), second);
    if At(second.result) - At(first.result) >= 60_000 {
      CountsExactly(redact, Some(s), second);
    }
  }

  /** A success, and a failure that no second try may cure, are never pending, and a success starts the count anew. */
  lemma {:induction false} OthersAreNeverPending(redact: string -> string, existing: Option<Snapshot>, o: Observation)
    requires existing.Some? ==> !Stands(existing.value, o)
    requires !MayPass(o.result)
    ensures !Record(redact, existing, o).confirmationPending
    ensures o.result.status != Failed ==> Record(redact, existing, o).failures == 0
  {
    CountsExactly(redact, existing, o);
  }
}
