/** What an undisturbed activity does from beginning to end: what it writes, for which shares, and what it leaves. */
module HealthWholeRuns {
  import opened Prelude
  import opened HealthRecords
  import opened HealthBatches
  import opened HealthReplay
  import opened HealthRetry
  import opened HealthProjection

  // ------------------------------------------------------------------ the logs written

  /** A log of the activity's Provider, cycle and runtime names the share. */
  ghost predicate Logged(logs: seq<UsageLog>, job: Job, share: string) {
    exists l :: l in logs && l.healthCheck && l.app == job.provider.app && l.provider == job.provider.id
                && l.source == Some(job.cycle) && l.fingerprint == Some(job.fingerprint) && l.share == Some(share)
  }

  /** The shares not yet marked, in their order. */
  function Missing(shares: seq<string>, marked: set<string>): seq<string> {
    if shares == [] then []
    else
      var last := shares[|shares| - 1];
      Missing(shares[..|shares| - 1], marked) + if last in marked then [] else [last]
  }

  /** One log for each share, in order. */
  function LogsFor(c: Context, job: Job, shares: seq<string>, r: CheckResult, streaming: bool): (logs: seq<UsageLog>)
    ensures |logs| == |shares|
    ensures forall i :: 0 <= i < |shares| ==> logs[i] == LogFor(c, job, shares[i], r, streaming)
  {
    seq(|shares|, i requires 0 <= i < |shares| => LogFor(c, job, shares[i], r, streaming))
  }

  lemma MissingOneMore(shares: seq<string>, n: nat, marked: set<string>)
    requires n < |shares|
    ensures Missing(shares[..n + 1], marked)
         == Missing(shares[..n], marked) + if shares[n] in marked then [] else [shares[n]]
  {
    assert shares[..n + 1][..n] == shares[..n];
  }

  /** Exactly the unmarked shares are missing, each as often as it is named. */
  lemma {:induction false} MissingExactly(shares: seq<string>, marked: set<string>, x: string)
    ensures Multiplicity(Missing(shares, marked), x) == if x in marked then 0 else Multiplicity(shares, x)
  {
    if shares != [] {
      var front, last := shares[..|shares| - 1], shares[|shares| - 1];
      MissingExactly(front, marked, x);
      var m := Missing(front, marked);
      assert (m + [last])[..|m|] == m && (m + [last])[|m|] == last && m + [] == m;
    }
  }

  lemma {:induction false} NothingMarked(shares: seq<string>)
    ensures Missing(shares, {}) == shares
  {
    if shares != [] {
      NothingMarked(shares[..|shares| - 1]);
    }
  }

  /** The store after the first `n` shares of an activity have been dealt with. */
  function StoreAfter(c: Context, store: Store, job: Job, phase: Phase, n: nat): Store
    requires phase.Writing? && n <= |phase.todo|
  {
    var missing := Missing(phase.todo[..n], phase.projected);
    store.(logs := store.logs + LogsFor(c, job, missing, phase.result, phase.streaming))
  }

  lemma {:induction false} StoreOneMore(c: Context, store: Store, job: Job, phase: Phase, n: nat)
    requires phase.Writing? && n < |phase.todo|
    ensures var before, share := StoreAfter(c, store, job, phase, n), phase.todo[n];
            StoreAfter(c, store, job, phase, n + 1)
            == if share in phase.projected then before
               else before.(logs := before.logs + [LogFor(c, job, share, phase.result, phase.streaming)])
  {
    var m := Missing(phase.todo[..n], phase.projected);
    MissingOneMore(phase.todo, n, phase.projected);
    if phase.todo[n] in phase.projected {
      assert m + [] == m;
    } else {
      LogsOneMore(c, job, m, phase.todo[n], phase.result, phase.streaming);
      assert store.logs + (LogsFor(c, job, m, phase.result, phase.streaming)
                           + [LogFor(c, job, phase.todo[n], phase.result, phase.streaming)])
          == StoreAfter(c, store, job, phase, n).logs
             + [LogFor(c, job, phase.todo[n], phase.result, phase.streaming)];
    }
  }

  /** The state after `n` writes: the missing ones among the first `n` shares have their logs. */
  lemma {:induction false} WritesLeave(c: Context, s: State, job: Job, phase: Phase, n: nat)
    requires s.active == Some(Activity(job, phase)) && phase.Writing? && n <= |phase.todo|
    requires phase.recovered ==> Distinct(phase.todo)
    ensures AfterWrites(c, s, n)
         == State(StoreAfter(c, s.store, job, phase, n), Some(Activity(job, Written(phase, n))))
  {
    if n == 0 {
      NoWrites(phase, "");
      assert s.store.logs + [] == s.store.logs;
    } else {
      WritesLeave(c, s, job, phase, n - 1);
      WriteLeaves(c, AfterWrites(c, s, n - 1), job, phase, n - 1);
      StoreOneMore(c, s.store, job, phase, n - 1);
    }
  }

  lemma LogsOneMore(c: Context, job: Job, shares: seq<string>, x: string, r: CheckResult, streaming: bool)
    ensures LogsFor(c, job, shares + [x], r, streaming)
         == LogsFor(c, job, shares, r, streaming) + [LogFor(c, job, x, r, streaming)]
  {
  }

  lemma {:induction false} WriteLeaves(c: Context, s: State, job: Job, phase: Phase, n: nat)
    requires phase.Writing? && n < |phase.todo| && (phase.recovered ==> Distinct(phase.todo))
    requires s.active == Some(Activity(job, Written(phase, n)))
    ensures var share := phase.todo[n];
            Next(c, s, Write) == State(
              if share in phase.projected then s.store
              else s.store.(logs := s.store.logs + [LogFor(c, job, share, phase.result, phase.streaming)]),
              Some(Activity(job, Written(phase, n + 1))))
  {
    WrittenStep(phase, n);
    assert phase.recovered ==> phase.todo[n] !in phase.todo[..n];
  }

  /** The whole loop and its end. */
  lemma {:induction false} LoopLeaves(c: Context, s: State, job: Job, phase: Phase)
    requires s.active == Some(Activity(job, phase)) && phase.Writing? && (phase.recovered ==> Distinct(phase.todo))
    ensures Next(c, AfterWrites(c, s, |phase.todo|), Finish) == Left(
              s.store, LogsFor(c, job, Missing(phase.todo, phase.projected), phase.result, phase.streaming))
  {
    WritesLeave(c, s, job, phase, |phase.todo|);
    assert phase.todo[..|phase.todo|] == phase.todo;
  }

  /** No activity any more, and these logs more in the store. */
  function Left(store: Store, logs: seq<UsageLog>): State {
    State(store.(logs := store.logs + logs), None)
  }

  /** Writing to all shares and finishing, as events. */
  function Closing(job: Job): seq<Event> { Writes(|job.shares|) + [Finish] }

  lemma {:induction false} ClosingLeaves(c: Context, s: State, job: Job, phase: Phase)
    requires s.active == Some(Activity(job, phase)) && phase.Writing? && (phase.recovered ==> Distinct(phase.todo))
    requires phase.todo == job.shares
    ensures Reached(c, s, Closing(job)) == Left(
              s.store, LogsFor(c, job, Missing(job.shares, phase.projected), phase.result, phase.streaming))
  {
    LoopLeaves(c, s, job, phase);
    AfterWritesIsReached(c, s, |job.shares|);
    HealthRetry.Extend(c, s, Writes(|job.shares|), Finish);
  }

  // ----------------------------------------------------------------------- the router

  /** The check of an activity, in one step. */
  lemma {:induction false} Opened(c: Context, s: State, job: Job, origin: Origin)
    requires Legal(c, s, Begin(job, origin))
    ensures var found := Existing(s.store, job.provider, job.cycle, job.fingerprint);
            Reached(c, s, Opening(job, origin)) == State(
              s.store,
              if found == None then Some(Activity(job, Undecided))
              else if job.local then None
              else Some(Activity(job, Found(found.value, true))))
  {
    TwoSteps(c, s, Begin(job, origin), Recover);
  }

  lemma MarkedExactly(logs: seq<UsageLog>, job: Job, share: string)
    ensures share in ShareIds(logs, job.provider, job.cycle, job.fingerprint) <==> Logged(logs, job, share)
  {
  }

  /** The marked shares are those with a log of the cycle. */
  ghost predicate MarksLogged(logs: seq<UsageLog>, job: Job, marked: set<string>) {
    forall x :: x in marked <==> Logged(logs, job, x)
  }

  /**
   * A batch of a cycle whose result is recorded, undisturbed: it ends with a log of that very result for each share of
   * its group that has none yet, and changes nothing else.
   */
  lemma {:induction false} RecordedCycleIsLogged(c: Context, s: State, job: Job, origin: Origin)
    returns (marked: set<string>)
    requires Legal(c, s, Begin(job, origin)) && !job.local
    requires Existing(s.store, job.provider, job.cycle, job.fingerprint).Some?
    ensures MarksLogged(s.store.logs, job, marked)
    ensures var r := Existing(s.store, job.provider, job.cycle, job.fingerprint).value;
            Reached(c, s, Opening(job, origin) + [Project] + Closing(job)) == Left(
              s.store, LogsFor(c, job, Missing(job.shares, marked), r, r.category != Some("quotaBlocked")))
  {
    marked := ShareIds(s.store.logs, job.provider, job.cycle, job.fingerprint);
    forall x ensures x in marked <==> Logged(s.store.logs, job, x) {
      MarkedExactly(s.store.logs, job, x);
    }
    Opened(c, s, job, origin);
    HealthRetry.Extend(c, s, Opening(job, origin), Project);
    HealthRetry.ReachedConcat(c, s, Opening(job, origin) + [Project], Closing(job));
    GroupSharesAreDistinct(origin.ids, origin.admitted);
    var found := Existing(s.store, job.provider, job.cycle, job.fingerprint).value;
    var t := Reached(c, s, Opening(job, origin));
    assert t == State(s.store, Some(Activity(job, Found(found, true))));
    ClosingLeaves(c, Next(c, t, Project), job, Next(c, t, Project).active.value.phase);
  }

  lemma NothingLogged(s: Store, job: Job)
    requires Existing(s, job.provider, job.cycle, job.fingerprint) == None
    ensures ShareIds(s.logs, job.provider, job.cycle, job.fingerprint) == {}
  {
    FoundExactlyWithEvidence(s, job.provider, job.cycle, job.fingerprint);
  }

  /**
   * A batch of a cycle with nothing recorded, undisturbed: it probes, and ends with the snapshot of the probe and a log
   * of its result for every share of its group. When the snapshot then is of another runtime it ends without a log.
   */
  lemma {:induction false} FreshCycleIsLogged(c: Context, s: State, job: Job, origin: Origin, e: Event)
    requires Legal(c, s, Begin(job, origin)) && !job.local
    requires Existing(s.store, job.provider, job.cycle, job.fingerprint) == None
    requires e.Probe? && Genuine(e.result) && e.recorded
    ensures var snapshot := Recorded(c.redact, s.store.snapshot, e.result, e.revision, e.fingerprint, job.cycle);
            var store := s.store.(snapshot := Some(snapshot));
            if snapshot.fingerprint == job.fingerprint
            then Reached(c, s, Opening(job, origin) + [e] + ([Project] + Closing(job)))
                 == Left(store, LogsFor(c, job, job.shares, e.result, true))
            else Reached(c, s, Opening(job, origin) + [e]) == State(store, None)
  {
    Opened(c, s, job, origin);
    HealthRetry.Extend(c, s, Opening(job, origin), e);
    var t := Reached(c, s, Opening(job, origin) + [e]);
    if t.active.Some? {
      NothingLogged(s.store, job);
      FoundIsLogged(c, t, job, e.result);
      HealthRetry.ReachedConcat(c, s, Opening(job, origin) + [e], [Project] + Closing(job));
    }
  }

  /** Logging a fresh result that no share has a log of. */
  lemma {:induction false} FoundIsLogged(c: Context, s: State, job: Job, r: CheckResult)
    requires s.active == Some(Activity(job, Found(r, false)))
    requires job.local || ShareIds(s.store.logs, job.provider, job.cycle, job.fingerprint) == {}
    ensures Reached(c, s, [Project] + Closing(job)) == Left(s.store, LogsFor(c, job, job.shares, r, true))
  {
    HealthRetry.Extend(c, s, [], Project);
    assert [] + [Project] == [Project];
    HealthRetry.ReachedConcat(c, s, [Project], Closing(job));
    var t := Reached(c, s, [Project]);
    ClosingLeaves(c, t, job, t.active.value.phase);
    NothingMarked(job.shares);
  }

  /** A batch of a cycle with nothing recorded and a blocked quota: a log of the block for every share, and no probe. */
  lemma {:induction false} BlockedCycleIsLogged(c: Context, s: State, job: Job, origin: Origin, r: CheckResult)
    requires Legal(c, s, Begin(job, origin)) && !job.local && Blocked(r)
    requires Existing(s.store, job.provider, job.cycle, job.fingerprint) == None
    ensures Reached(c, s, Opening(job, origin) + [Quota(r)] + Closing(job))
         == Left(s.store, LogsFor(c, job, job.shares, r, false))
  {
    Opened(c, s, job, origin);
    HealthRetry.Extend(c, s, Opening(job, origin), Quota(r));
    HealthRetry.ReachedConcat(c, s, Opening(job, origin) + [Quota(r)], Closing(job));
    var t := Reached(c, s, Opening(job, origin) + [Quota(r)]);
    ClosingLeaves(c, t, job, t.active.value.phase);
    NothingMarked(job.shares);
  }

  // --------------------------------------------------------------- the local scheduler

  /** The local scheduler leaves a slot alone that has a result. */
  lemma {:induction false} RecordedSlotIsLeftAlone(c: Context, s: State, job: Job, origin: Origin)
    requires Legal(c, s, Begin(job, origin)) && job.local
    requires Existing(s.store, job.provider, job.cycle, job.fingerprint).Some?
    ensures Reached(c, s, Opening(job, origin)) == State(s.store, None)
  {
    Opened(c, s, job, origin);
  }

  /**
   * In a slot without a result it probes, and logs the result for every share of the Provider, under its own source
   * and the runtime of the snapshot, whichever that is.
   */
  lemma {:induction false} FreshSlotIsLogged(c: Context, s: State, job: Job, origin: Origin, e: Event)
    requires Legal(c, s, Begin(job, origin)) && job.local
    requires Existing(s.store, job.provider, job.cycle, job.fingerprint) == None
    requires e.Probe? && Genuine(e.result) && e.recorded
    ensures var snapshot :=
              Recorded(c.redact, s.store.snapshot, e.result, e.revision, e.fingerprint, "cc-switch-scheduled");
            var kept := job.(fingerprint := snapshot.fingerprint);
            Reached(c, s, Opening(job, origin) + [e] + ([Project] + Closing(job)))
            == Left(s.store.(snapshot := Some(snapshot)), LogsFor(c, kept, job.shares, e.result, true))
  {
    Opened(c, s, job, origin);
    HealthRetry.Extend(c, s, Opening(job, origin), e);
    var t := Reached(c, s, Opening(job, origin) + [e]);
    FoundIsLogged(c, t, t.active.value.job, e.result);
    HealthRetry.ReachedConcat(c, s, Opening(job, origin) + [e], [Project] + Closing(job));
  }

  /** An unrecorded probe ends either activity with nothing changed. */
  lemma {:induction false} LostProbeChangesNothing(c: Context, s: State, job: Job, origin: Origin, e: Event)
    requires Legal(c, s, Begin(job, origin))
    requires Existing(s.store, job.provider, job.cycle, job.fingerprint) == None
    requires e.Probe? && Genuine(e.result) && !e.recorded
    ensures Reached(c, s, Opening(job, origin) + [e]) == State(s.store, None)
  {
    Opened(c, s, job, origin);
    HealthRetry.Extend(c, s, Opening(job, origin), e);
  }

  /** Each log written is of its share and of the activity's Provider and runtime, under the activity's source. */
  lemma WrittenLogSays(c: Context, job: Job, share: string, r: CheckResult, streaming: bool)
    ensures var l := LogFor(c, job, share, r, streaming);
            && l.healthCheck && l.share == Some(share) && l.fingerprint == Some(job.fingerprint)
            && l.app == job.provider.app && l.provider == job.provider.id && l.streaming == streaming
            && l.source == Some(if job.local then "cc-switch-scheduled" else job.cycle)
            && l.created == (if r.testedAt < 0 then 0 else r.testedAt * 1000) && l.failureKind == r.category
            && l.statusCode == (if r.httpStatus.Some? then r.httpStatus.value else 599)
            && l.evidence.Some? && l.evidence.value.httpStatus == r.httpStatus
            && (l.evidence.value.status == "operational" <==> r.status == Operational)
            && (l.evidence.value.status == "degraded" <==> r.status == Degraded)
            && (l.evidence.value.status == "failed" <==> r.status == Failed)
  {
    var o, d, f := "operational", "degraded", "failed";
    assert o[0] == 'o' && d[0] == 'd' && f[0] == 'f';
  }
}
