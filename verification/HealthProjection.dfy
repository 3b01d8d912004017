/** Every requested share ends with one log of the cycle, and all of them tell the same result. */
module HealthProjection {
  import opened Prelude
  import opened HealthSlots
  import opened HealthRecords
  import opened HealthBatches
  import opened HealthReplay

  function P0(c: Context): Provider { Provider(c.app, c.id, 0) }

  /** The logs of one cycle, in order. */
  function Rows(logs: seq<UsageLog>, c: Context, k: Cycle): (rows: seq<UsageLog>)
    ensures forall l :: l in rows <==> l in logs && Matches(l, P0(c), k.source, k.fingerprint)
  {
    if logs == [] then []
    else
      var last := logs[|logs| - 1];
      Rows(logs[..|logs| - 1], c, k) + if Matches(last, P0(c), k.source, k.fingerprint) then [last] else []
  }

  lemma {:induction false} RowsAppend(logs: seq<UsageLog>, l: UsageLog, c: Context, k: Cycle)
    ensures Rows(logs + [l], c, k)
         == Rows(logs, c, k) + if Matches(l, P0(c), k.source, k.fingerprint) then [l] else []
  {
    assert (logs + [l])[..|logs|] == logs;
  }

  /** A log without the share it is for. */
  function Body(l: UsageLog): UsageLog { l.(share := None) }

  /** What a log of the cycle says when it is written from `r`. */
  function Telling(c: Context, k: Cycle, r: CheckResult): UsageLog {
    Body(HealthUsageLog(c.redact, "", P0(c), r, k.source, !QuotaBlocked(r), k.fingerprint))
  }

  /** A log that, recovered and written again, says the same. */
  predicate Faithful(c: Context, k: Cycle, l: UsageLog) {
    && l.share.Some?
    && ExactResult(l, P0(c)).Some? && Consistent(ExactResult(l, P0(c)).value)
    && Body(l) == Telling(c, k, ExactResult(l, P0(c)).value)
  }

  ghost predicate AllFaithful(c: Context, k: Cycle, rows: seq<UsageLog>) {
    forall l :: l in rows ==> Faithful(c, k, l)
  }

  ghost predicate SameBody(rows: seq<UsageLog>) {
    forall l, m :: l in rows && m in rows ==> Body(l) == Body(m)
  }

  ghost predicate OneEach(rows: seq<UsageLog>) {
    forall i, j :: 0 <= i < j < |rows| ==> rows[i].share != rows[j].share
  }

  ghost predicate Proper(c: Context, k: Cycle, rows: seq<UsageLog>) {
    AllFaithful(c, k, rows) && SameBody(rows) && OneEach(rows)
  }

  function SharesOf(rows: seq<UsageLog>): set<string> {
    set l | l in rows && l.share.Some? :: l.share.value
  }

  predicate ForCycle(job: Job, k: Cycle) { !job.local && job.cycle == k.source && job.fingerprint == k.fingerprint }

  /** What is written from `r` agrees with the rows there are. */
  ghost predicate Agrees(c: Context, k: Cycle, r: CheckResult, rows: seq<UsageLog>) {
    Consistent(r) && forall l :: l in rows ==> Body(l) == Telling(c, k, r)
  }

  // ------------------------------------------------------------------------ one log

  lemma NewLog(c: Context, k: Cycle, job: Job, share: string, r: CheckResult)
    requires Idempotent(c.redact) && ForCycle(job, k) && Of(job.provider, c) && Consistent(r)
    ensures var l := LogFor(c, job, share, r, !QuotaBlocked(r));
            && Faithful(c, k, l) && Body(l) == Telling(c, k, r) && l.share == Some(share)
            && Matches(l, P0(c), k.source, k.fingerprint)
  {
    WriteThenRecover(c.redact, share, P0(c), r, k.source, !QuotaBlocked(r), k.fingerprint);
    ReplayedLogIsTheSame(c.redact, share, "", P0(c), r, k.source, !QuotaBlocked(r), k.fingerprint);
  }

  lemma OtherLog(c: Context, k: Cycle, job: Job, share: string, r: CheckResult, streaming: bool)
    requires !ForCycle(job, k) && k.source != SCHEDULED
    ensures !Matches(LogFor(c, job, share, r, streaming), P0(c), k.source, k.fingerprint)
  {
  }

  /** What a batch recovers agrees with the rows there are. */
  lemma RecoveredAgrees(c: Context, k: Cycle, store: Store, p: Provider)
    requires Of(p, c) && Proper(c, k, Rows(store.logs, c, k))
    ensures var found := Existing(store, p, k.source, k.fingerprint);
            && (found.Some? ==> Agrees(c, k, found.value, Rows(store.logs, c, k)))
            && (found == None ==> Rows(store.logs, c, k) == [])
  {
    FoundIsConsistent(store, p, k.source, k.fingerprint);
    SameLatest(store.logs, p, P0(c), k.source, k.fingerprint);
    var log := Latest(store.logs, P0(c), k.source, k.fingerprint);
    var rows := Rows(store.logs, c, k);
    assert rows != [] ==> rows[0] in rows;
    if log.Some? {
      assert log.value in rows;
      SameTelling(c, k, log.value, p);
    }
  }

  lemma SameTelling(c: Context, k: Cycle, l: UsageLog, p: Provider)
    requires Of(p, c) && Faithful(c, k, l)
    ensures ExactResult(l, p).Some? && Telling(c, k, ExactResult(l, p).value) == Body(l)
  {
  }

  // ------------------------------------------------------------------- the invariant

  /** What is still to do, and what is done. */
  ghost predicate Underway(c: Context, k: Cycle, rows: seq<UsageLog>, job: Job, phase: Phase)
    requires phase.Writing?
  {
    && phase.streaming == !QuotaBlocked(phase.result)
    && Agrees(c, k, phase.result, rows)
    && Distinct(phase.todo)
    && (forall x :: x in phase.todo ==> (x in phase.projected <==> x in SharesOf(rows)))
    && (forall x :: x in job.shares ==> x in phase.todo || x in SharesOf(rows))
  }

  ghost predicate PhaseOk(c: Context, k: Cycle, rows: seq<UsageLog>, job: Job, phase: Phase) {
    Distinct(job.shares) && Of(job.provider, c) &&
    match phase
    case Checking => true
    case Undecided => rows == []
    case Found(r, recovered) => Agrees(c, k, r, rows) && (!recovered ==> !QuotaBlocked(r))
    case Writing(_, _, _, _, _) => Underway(c, k, rows, job, phase)
  }

  ghost predicate Inv(c: Context, k: Cycle, s: State) {
    && Proper(c, k, Rows(s.store.logs, c, k))
    && (s.active.Some? && ForCycle(s.active.value.job, k) ==>
          PhaseOk(c, k, Rows(s.store.logs, c, k), s.active.value.job, s.active.value.phase))
  }

  /** No other part of the program touches the cycle's logs. */
  ghost predicate Calm(c: Context, k: Cycle, s: State, e: Event) {
    e.Outside? ==> Rows(e.store.logs, c, k) == Rows(s.store.logs, c, k)
  }

  ghost predicate CalmRun(c: Context, k: Cycle, start: State, run: seq<Event>) {
    run == [] ||
    var front := run[..|run| - 1];
    CalmRun(c, k, start, front) && Calm(c, k, Reached(c, start, front), run[|run| - 1])
  }

  // ------------------------------------------------------------------------ each step

  lemma SharesRead(c: Context, k: Cycle, logs: seq<UsageLog>, p: Provider)
    requires Of(p, c)
    ensures ShareIds(logs, p, k.source, k.fingerprint) == SharesOf(Rows(logs, c, k))
  {
  }

  lemma {:induction false} ProperAppend(c: Context, k: Cycle, rows: seq<UsageLog>, l: UsageLog)
    requires Proper(c, k, rows) && Faithful(c, k, l) && l.share.value !in SharesOf(rows)
    requires forall m :: m in rows ==> Body(m) == Body(l)
    ensures Proper(c, k, rows + [l]) && SharesOf(rows + [l]) == SharesOf(rows) + {l.share.value}
  {
    var all := rows + [l];
    assert forall m :: m in all <==> m in rows || m == l;
    forall i, j | 0 <= i < j < |all| ensures all[i].share != all[j].share {
      assert all[i] in rows;
      if j == |rows| {
        assert Faithful(c, k, all[i]);
      }
    }
  }

  lemma {:induction false} UnderwayStep(
    c: Context, k: Cycle, rows: seq<UsageLog>, more: seq<UsageLog>, job: Job, phase: Phase, projected: set<string>)
    requires phase.Writing? && phase.todo != [] && Underway(c, k, rows, job, phase)
    requires Agrees(c, k, phase.result, more) && SharesOf(more) == SharesOf(rows) + {phase.todo[0]}
    requires phase.projected <= projected <= phase.projected + {phase.todo[0]}
    ensures Underway(c, k, more, job, phase.(todo := phase.todo[1..], projected := projected))
  {
    var share, rest := phase.todo[0], phase.todo[1..];
    assert phase.todo == [share] + rest;
    forall x | x in rest ensures x in projected <==> x in SharesOf(more) {
      assert x in phase.todo && x != share;
    }
  }

  /** Writing a row for the next share, or finding it there. */
  lemma {:induction false} WriteKeepsInv(c: Context, k: Cycle, s: State)
    requires Idempotent(c.redact) && Inv(c, k, s) && Legal(c, s, Write) && ForCycle(s.active.value.job, k)
    ensures Inv(c, k, Do(c, s, Write))
  {
    var Activity(job, phase) := s.active.value;
    var rows, share := Rows(s.store.logs, c, k), phase.todo[0];
    var after := Do(c, s, Write);
    var more := Rows(after.store.logs, c, k);
    if share !in phase.projected {
      var l := LogFor(c, job, share, phase.result, phase.streaming);
      NewLog(c, k, job, share, phase.result);
      RowsAppend(s.store.logs, l, c, k);
      ProperAppend(c, k, rows, l);
      assert more == rows + [l];
    } else {
      assert SharesOf(rows) + {share} == SharesOf(rows);
    }
    UnderwayStep(c, k, rows, more, job, phase, after.active.value.phase.projected);
  }

  /** A log for anything else leaves the cycle's rows alone. */
  lemma {:induction false} WriteElsewhere(c: Context, k: Cycle, s: State)
    requires k.source != SCHEDULED && Legal(c, s, Write) && !ForCycle(s.active.value.job, k)
    ensures Rows(Do(c, s, Write).store.logs, c, k) == Rows(s.store.logs, c, k)
  {
    var Activity(job, phase) := s.active.value;
    OtherLog(c, k, job, phase.todo[0], phase.result, phase.streaming);
    RowsAppend(s.store.logs, LogFor(c, job, phase.todo[0], phase.result, phase.streaming), c, k);
  }

  lemma RecoverKeepsInv(c: Context, k: Cycle, s: State)
    requires Inv(c, k, s) && Legal(c, s, Recover) && ForCycle(s.active.value.job, k)
    ensures Inv(c, k, Do(c, s, Recover))
  {
    RecoveredAgrees(c, k, s.store, s.active.value.job.provider);
  }

  lemma ProjectKeepsInv(c: Context, k: Cycle, s: State)
    requires Inv(c, k, s) && Legal(c, s, Project) && ForCycle(s.active.value.job, k)
    ensures Inv(c, k, Do(c, s, Project))
  {
    SharesRead(c, k, s.store.logs, s.active.value.job.provider);
  }

  lemma BeginKeepsInv(c: Context, k: Cycle, s: State, job: Job, origin: Origin)
    requires Inv(c, k, s) && Legal(c, s, Begin(job, origin))
    ensures Inv(c, k, Do(c, s, Begin(job, origin)))
  {
    if origin.FromRouter? {
      GroupSharesAreDistinct(origin.ids, origin.admitted);
    }
  }

  /** A probe or a quota block is taken up only where the cycle has no logs. */
  lemma ResultKeepsInv(c: Context, k: Cycle, s: State, e: Event)
    requires Inv(c, k, s) && (e.Probe? || e.Quota?) && Legal(c, s, e)
    ensures Inv(c, k, Do(c, s, e))
  {
  }

  lemma OthersKeepInv(c: Context, k: Cycle, s: State, e: Event)
    requires Inv(c, k, s) && Calm(c, k, s, e) && Legal(c, s, e)
    requires e.Finish? || e.Abort? || e.Outside?
    ensures Inv(c, k, Do(c, s, e))
  {
  }

  lemma {:induction false} StepKeepsInv(c: Context, k: Cycle, s: State, e: Event)
    requires Idempotent(c.redact) && k.source != SCHEDULED
    requires Inv(c, k, s) && Calm(c, k, s, e)
    ensures Inv(c, k, Next(c, s, e))
  {
    if Legal(c, s, e) {
      match e
      case Begin(job, origin) => BeginKeepsInv(c, k, s, job, origin);
      case Recover =>
        if ForCycle(s.active.value.job, k) {
          RecoverKeepsInv(c, k, s);
        }
      case Project =>
        if ForCycle(s.active.value.job, k) {
          ProjectKeepsInv(c, k, s);
        }
      case Write =>
        if ForCycle(s.active.value.job, k) {
          WriteKeepsInv(c, k, s);
        } else {
          WriteElsewhere(c, k, s);
        }
      case Probe(_, _, _, _) => ResultKeepsInv(c, k, s, e);
      case Quota(_) => ResultKeepsInv(c, k, s, e);
      case Finish => OthersKeepInv(c, k, s, e);
      case Abort => OthersKeepInv(c, k, s, e);
      case Outside(_) => OthersKeepInv(c, k, s, e);
    }
  }

  lemma {:induction false} EveryRunKeepsInv(c: Context, k: Cycle, start: State, run: seq<Event>)
    requires Idempotent(c.redact) && k.source != SCHEDULED
    requires start.active == None && Rows(start.store.logs, c, k) == [] && CalmRun(c, k, start, run)
    ensures Inv(c, k, Reached(c, start, run))
  {
    if run != [] {
      var front := run[..|run| - 1];
      EveryRunKeepsInv(c, k, start, front);
      StepKeepsInv(c, k, Reached(c, start, front), run[|run| - 1]);
    }
  }

  // ----------------------------------------------------------------- the main results

  /** How many of the rows are for a share. */
  function CountFor(rows: seq<UsageLog>, share: string): nat {
    if rows == [] then 0
    else CountFor(rows[..|rows| - 1], share) + if rows[|rows| - 1].share == Some(share) then 1 else 0
  }

  lemma {:induction false} CountIsOne(rows: seq<UsageLog>, share: string)
    requires OneEach(rows)
    ensures CountFor(rows, share) == if share in SharesOf(rows) then 1 else 0
  {
    if rows != [] {
      var front, last := rows[..|rows| - 1], rows[|rows| - 1];
      assert rows == front + [last];
      assert forall i :: 0 <= i < |front| ==> front[i] == rows[i];
      CountIsOne(front, share);
      if last.share == Some(share) {
        assert share !in SharesOf(front);
        assert last in rows;
      } else {
        assert share in SharesOf(front) <==> share in SharesOf(rows);
      }
    }
  }

  /**
   * At every point of every run, no share has two logs of the cycle, and all its logs carry one result and one
   * quota flag.
   */
  lemma {:induction false} NeverTwoLogsNorTwoResults(c: Context, k: Cycle, start: State, run: seq<Event>)
    requires Idempotent(c.redact) && k.source != SCHEDULED
    requires start.active == None && Rows(start.store.logs, c, k) == [] && CalmRun(c, k, start, run)
    ensures var rows := Rows(Reached(c, start, run).store.logs, c, k);
            && (forall share :: CountFor(rows, share) <= 1)
            && (forall l, m :: l in rows && m in rows ==>
                  Body(l) == Body(m) && ExactResult(l, P0(c)) == ExactResult(m, P0(c)) && l.streaming == m.streaming)
            && (forall l :: l in rows ==> l.streaming == (l.failureKind != Some(QUOTA_BLOCKED)))
  {
    EveryRunKeepsInv(c, k, start, run);
    var rows := Rows(Reached(c, start, run).store.logs, c, k);
    forall share ensures CountFor(rows, share) <= 1 {
      CountIsOne(rows, share);
    }
    forall l, m | l in rows && m in rows
      ensures Body(l) == Body(m) && ExactResult(l, P0(c)) == ExactResult(m, P0(c)) && l.streaming == m.streaming
    {
      BodyGivesResult(l, m, P0(c));
    }
  }

  lemma BodyGivesResult(l: UsageLog, m: UsageLog, p: Provider)
    requires Body(l) == Body(m)
    ensures ExactResult(l, p) == ExactResult(m, p) && l.streaming == m.streaming && l.failureKind == m.failureKind
  {
  }

  /**
   * When a batch comes to its end, after any number of failed ones, each share it was asked for has exactly one
   * log.
   */
  lemma {:induction false} FinishedBatchCoversItsShares(c: Context, k: Cycle, start: State, run: seq<Event>)
    requires Idempotent(c.redact) && k.source != SCHEDULED
    requires start.active == None && Rows(start.store.logs, c, k) == [] && CalmRun(c, k, start, run)
    requires var s := Reached(c, start, run); Legal(c, s, Finish) && ForCycle(s.active.value.job, k)
    ensures var s := Reached(c, start, run);
            forall share :: share in s.active.value.job.shares ==> CountFor(Rows(s.store.logs, c, k), share) == 1
  {
    EveryRunKeepsInv(c, k, start, run);
    var s := Reached(c, start, run);
    var rows := Rows(s.store.logs, c, k);
    assert Underway(c, k, rows, s.active.value.job, s.active.value.phase);
    forall share | share in s.active.value.job.shares ensures CountFor(rows, share) == 1 {
      CountIsOne(rows, share);
    }
  }

  // ------------------------------------------------------- without the caller's deduplication

  function Writes(n: nat): seq<Event> { seq(n, _ => Write) }

  lemma {:induction false} OneMoreWrite(c: Context, s: State, n: nat)
    ensures Reached(c, s, Writes(n + 1)) == Next(c, Reached(c, s, Writes(n)), Write)
  {
    assert Writes(n + 1)[..n] == Writes(n);
  }

  lemma {:induction false} CountAppend(rows: seq<UsageLog>, l: UsageLog, x: string)
    ensures CountFor(rows + [l], x) == CountFor(rows, x) + if l.share == Some(x) then 1 else 0
  {
    assert (rows + [l])[..|rows|] == rows;
  }

  /**
   * How many logs for `x` the first `n` writes add: one per mention, but none for a share already projected, and
   * one in all when the result was recovered.
   */
  function Added(phase: Phase, n: nat, x: string): nat
    requires phase.Writing? && n <= |phase.todo|
  {
    if x in phase.projected then 0
    else if phase.recovered && Multiplicity(phase.todo[..n], x) > 0 then 1
    else Multiplicity(phase.todo[..n], x)
  }

  function Named(shares: seq<string>): set<string> { set x | x in shares }

  /** The activity after `n` writes. */
  function Written(phase: Phase, n: nat): Phase
    requires phase.Writing? && n <= |phase.todo|
  {
    phase.(todo := phase.todo[n..],
           projected := if phase.recovered then phase.projected + Named(phase.todo[..n]) else phase.projected)
  }

  /** One write, spelled out. */
  lemma WriteOnce(c: Context, k: Cycle, s: State, x: string)
    requires Legal(c, s, Write) && Of(s.active.value.job.provider, c) && ForCycle(s.active.value.job, k)
    ensures var Activity(job, phase) := s.active.value;
            var after, share := Next(c, s, Write), phase.todo[0];
            && CountFor(Rows(after.store.logs, c, k), x)
               == CountFor(Rows(s.store.logs, c, k), x) + (if share == x && x !in phase.projected then 1 else 0)
            && after.active == Some(Activity(job, phase.(
                 todo := phase.todo[1..],
                 projected := if phase.recovered then phase.projected + {share} else phase.projected)))
  {
    var Activity(job, phase) := s.active.value;
    var l := LogFor(c, job, phase.todo[0], phase.result, phase.streaming);
    RowsAppend(s.store.logs, l, c, k);
    CountAppend(Rows(s.store.logs, c, k), l, x);
  }

  lemma WrittenStep(phase: Phase, n: nat)
    requires phase.Writing? && n < |phase.todo|
    ensures var before := Written(phase, n);
            before.todo[0] == phase.todo[n] &&
            Written(phase, n + 1) == before.(
              todo := before.todo[1..],
              projected := if phase.recovered then before.projected + {phase.todo[n]} else before.projected)
  {
    assert phase.todo[..n + 1] == phase.todo[..n] + [phase.todo[n]];
    assert Named(phase.todo[..n + 1]) == Named(phase.todo[..n]) + {phase.todo[n]};
    assert phase.todo[n..][1..] == phase.todo[n + 1..];
  }

  lemma AddedStep(phase: Phase, n: nat, x: string)
    requires phase.Writing? && n < |phase.todo|
    ensures Added(phase, n + 1, x)
         == Added(phase, n, x) + if phase.todo[n] == x && x !in Written(phase, n).projected then 1 else 0
  {
    assert phase.todo[..n + 1][..n] == phase.todo[..n];
    NamedIsCounted(phase.todo[..n], x);
  }

  /** Write number `n + 1` of an activity, spelled out. */
  lemma {:induction false} NextWrite(c: Context, k: Cycle, s: State, job: Job, phase: Phase, n: nat, x: string)
    requires phase.Writing? && n < |phase.todo| && Of(job.provider, c) && ForCycle(job, k)
    requires s.active == Some(Activity(job, Written(phase, n)))
    ensures var after := Next(c, s, Write);
            && after.active == Some(Activity(job, Written(phase, n + 1)))
            && CountFor(Rows(after.store.logs, c, k), x)
               == CountFor(Rows(s.store.logs, c, k), x) + (Added(phase, n + 1, x) - Added(phase, n, x))
  {
    WriteOnce(c, k, s, x);
    WrittenStep(phase, n);
    AddedStep(phase, n, x);
  }

  lemma NoWrites(phase: Phase, x: string)
    requires phase.Writing?
    ensures Written(phase, 0) == phase && Added(phase, 0, x) == 0
  {
    assert phase.todo[0..] == phase.todo && phase.todo[..0] == [];
    assert Named([]) == {};
  }

  /** The state after `n` writes in a row. */
  function AfterWrites(c: Context, s: State, n: nat): State {
    if n == 0 then s else Next(c, AfterWrites(c, s, n - 1), Write)
  }

  lemma {:induction false} AfterWritesIsReached(c: Context, s: State, n: nat)
    ensures AfterWrites(c, s, n) == Reached(c, s, Writes(n))
  {
    if n > 0 {
      AfterWritesIsReached(c, s, n - 1);
      OneMoreWrite(c, s, n - 1);
    }
  }

  /** The count of every share after any number of writes, whatever the shares, the store and the result. */
  lemma {:induction false} WritesCount(c: Context, k: Cycle, s: State, job: Job, phase: Phase, n: nat, x: string)
    requires s.active == Some(Activity(job, phase)) && phase.Writing? && n <= |phase.todo|
    requires Of(job.provider, c) && ForCycle(job, k)
    ensures AfterWrites(c, s, n).active == Some(Activity(job, Written(phase, n)))
    ensures CountFor(Rows(AfterWrites(c, s, n).store.logs, c, k), x)
         == CountFor(Rows(s.store.logs, c, k), x) + Added(phase, n, x)
  {
    if n == 0 {
      NoWrites(phase, x);
    } else {
      WritesCount(c, k, s, job, phase, n - 1, x);
      NextWrite(c, k, AfterWrites(c, s, n - 1), job, phase, n - 1, x);
    }
  }

  /** No share has two logs of the cycle. */
  ghost predicate NoTwo(c: Context, k: Cycle, s: State) {
    forall x :: CountFor(Rows(s.store.logs, c, k), x) <= 1
  }

  lemma {:induction false} CountedIsShared(rows: seq<UsageLog>, x: string)
    ensures CountFor(rows, x) > 0 <==> x in SharesOf(rows)
  {
    if rows != [] {
      var front, last := rows[..|rows| - 1], rows[|rows| - 1];
      assert rows == front + [last];
      CountedIsShared(front, x);
      assert x in SharesOf(rows) <==> x in SharesOf(front) || last.share == Some(x);
    }
  }

  /** What is marked as projected is exactly what has a log. */
  ghost predicate MarkedAsLogged(c: Context, k: Cycle, s: State, projected: set<string>) {
    forall x :: x in projected <==> CountFor(Rows(s.store.logs, c, k), x) > 0
  }

  /** Reading the share ids marks exactly the shares with a log. */
  lemma {:induction false} ProjectMarksLogged(c: Context, k: Cycle, s: State)
    requires Legal(c, s, Project) && ForCycle(s.active.value.job, k) && Of(s.active.value.job.provider, c)
    ensures var t := Next(c, s, Project);
            && t.store == s.store && t.active.Some? && t.active.value.phase.Writing?
            && t.active.value.job == s.active.value.job && t.active.value.phase.todo == s.active.value.job.shares
            && t.active.value.phase.recovered == s.active.value.phase.recovered
            && MarkedAsLogged(c, k, t, t.active.value.phase.projected)
  {
    var t, rows := Next(c, s, Project), Rows(s.store.logs, c, k);
    SharesRead(c, k, s.store.logs, s.active.value.job.provider);
    forall x ensures x in t.active.value.phase.projected <==> CountFor(rows, x) > 0 {
      CountedIsShared(rows, x);
    }
  }

  /** So does a quota block, which reads nothing, on a cycle without logs. */
  lemma QuotaMarksLogged(c: Context, k: Cycle, s: State, r: CheckResult)
    requires Legal(c, s, Quota(r)) && Rows(s.store.logs, c, k) == []
    ensures var t := Next(c, s, Quota(r));
            && t.store == s.store && t.active.Some? && t.active.value.phase.Writing?
            && t.active.value.job == s.active.value.job && t.active.value.phase.todo == s.active.value.job.shares
            && !t.active.value.phase.recovered
            && MarkedAsLogged(c, k, t, t.active.value.phase.projected)
  {
  }

  /** No share that still lacks a log is named twice. */
  ghost predicate MissingNamedOnce(shares: seq<string>, projected: set<string>) {
    forall x :: x !in projected ==> Multiplicity(shares, x) <= 1
  }

  /**
   * What the group function does with shares as they come, repeated or not: once it has written them all, no share
   * has two logs if and only if it recovered its result or names no missing share twice. When the cycle had no logs
   * before, that is: if and only if it recovered its result or its shares are distinct. This is so for a probed, a
   * recovered and a quota-blocked result alike.
   */
  lemma {:induction false} NoTwoLogsExactly(c: Context, k: Cycle, s: State)
    requires s.active.Some? && s.active.value.phase.Writing? && Of(s.active.value.job.provider, c)
    requires ForCycle(s.active.value.job, k) && s.active.value.phase.todo == s.active.value.job.shares
    requires NoTwo(c, k, s)
    requires MarkedAsLogged(c, k, s, s.active.value.phase.projected)
    ensures var Activity(job, phase) := s.active.value;
            var after := AfterWrites(c, s, |job.shares|);
            && (NoTwo(c, k, after) <==> phase.recovered || MissingNamedOnce(job.shares, phase.projected))
            && (Rows(s.store.logs, c, k) == [] ==> (NoTwo(c, k, after) <==> phase.recovered || Distinct(job.shares)))
  {
    var Activity(job, phase) := s.active.value;
    var shares := job.shares;
    var after := AfterWrites(c, s, |shares|);
    assert shares[..|shares|] == shares;
    forall x
      ensures CountFor(Rows(after.store.logs, c, k), x)
           == CountFor(Rows(s.store.logs, c, k), x) + Added(phase, |shares|, x)
    {
      WritesCount(c, k, s, job, phase, |shares|, x);
    }
    if phase.recovered || MissingNamedOnce(shares, phase.projected) {
      forall x ensures CountFor(Rows(after.store.logs, c, k), x) <= 1 {
        assert x !in phase.projected ==> phase.recovered || Multiplicity(shares, x) <= 1;
      }
    } else {
      var x :| x !in phase.projected && Multiplicity(shares, x) > 1;
      assert CountFor(Rows(after.store.logs, c, k), x) > 1;
    }
    if Rows(s.store.logs, c, k) == [] {
      assert forall x :: x !in phase.projected;
      MissingInEmpty(shares, phase.projected);
    }
  }

  /** The whole group function after its result is found: reading the share ids, then writing them all. */
  lemma {:induction false} GroupLogsOnceExactly(c: Context, k: Cycle, s: State)
    requires Legal(c, s, Project) && ForCycle(s.active.value.job, k) && Of(s.active.value.job.provider, c)
    requires NoTwo(c, k, s)
    ensures var Activity(job, phase) := s.active.value;
            var after := AfterWrites(c, Next(c, s, Project), |job.shares|);
            NoTwo(c, k, after) <==>
            phase.recovered || MissingNamedOnce(job.shares, SharesOf(Rows(s.store.logs, c, k)))
  {
    ProjectMarksLogged(c, k, s);
    SharesRead(c, k, s.store.logs, s.active.value.job.provider);
    NoTwoLogsExactly(c, k, Next(c, s, Project));
  }

  /** And after a quota block of a cycle without logs: no share is logged twice exactly when the shares are distinct. */
  lemma {:induction false} QuotaLogsOnceExactly(c: Context, k: Cycle, s: State, r: CheckResult)
    requires Legal(c, s, Quota(r)) && ForCycle(s.active.value.job, k) && Of(s.active.value.job.provider, c)
    requires Rows(s.store.logs, c, k) == []
    ensures NoTwo(c, k, AfterWrites(c, Next(c, s, Quota(r)), |s.active.value.job.shares|)) <==>
            Distinct(s.active.value.job.shares)
  {
    QuotaMarksLogged(c, k, s, r);
    NoTwoLogsExactly(c, k, Next(c, s, Quota(r)));
  }

  lemma MissingInEmpty(shares: seq<string>, projected: set<string>)
    requires forall x :: x !in projected
    ensures MissingNamedOnce(shares, projected) <==> Distinct(shares)
  {
    DistinctExactly(shares);
    if !NamedOnce(shares) {
      var x :| Multiplicity(shares, x) > 1;
      assert x !in projected;
    }
  }

  // --------------------------------------------------------------- the loop over a group

  datatype ShareCheck = ShareCheck(share: string, result: CheckResult, quotaBlocked: bool)

  /** The same result and quota flag for each share. */
  function Checks(shares: seq<string>, r: CheckResult, quotaBlocked: bool): (output: seq<ShareCheck>)
    ensures |output| == |shares|
    ensures forall i :: 0 <= i < |shares| ==> output[i] == ShareCheck(shares[i], r, quotaBlocked)
  {
    if shares == [] then []
    else Checks(shares[..|shares| - 1], r, quotaBlocked) + [ShareCheck(shares[|shares| - 1], r, quotaBlocked)]
  }

  lemma ChecksOneMore(shares: seq<string>, n: nat, r: CheckResult, quotaBlocked: bool)
    requires n < |shares|
    ensures Checks(shares[..n + 1], r, quotaBlocked)
         == Checks(shares[..n], r, quotaBlocked) + [ShareCheck(shares[n], r, quotaBlocked)]
  {
    assert shares[..n + 1][..n] == shares[..n];
  }

  /** The state in which the loop over a group has dealt with its first `done` targets. */
  function InLoop(store: Store, job: Job, r: CheckResult, recovered: bool, done: nat, projected: set<string>): State
    requires done <= |job.shares|
  {
    var streaming := !(recovered && QuotaBlocked(r));
    State(store, Some(Activity(job, Writing(r, streaming, job.shares[done..], projected, recovered))))
  }

  /** What a round does to the store, and to the set of shares taken as projected. */
  function RoundStore(
    c: Context, store: Store, job: Job, share: string, r: CheckResult, recovered: bool, projected: set<string>): Store
  {
    if share in projected then store
    else store.(logs := store.logs + [LogFor(c, job, share, r, !(recovered && QuotaBlocked(r)))])
  }

  function RoundProjected(share: string, recovered: bool, projected: set<string>): set<string> {
    if recovered then projected + {share} else projected
  }

  /** One round of the loop is one `Write`. */
  lemma LoopRound(
    c: Context, store: Store, job: Job, r: CheckResult, recovered: bool, done: nat, projected: set<string>)
    requires done < |job.shares|
    ensures var share := job.shares[done];
            Next(c, InLoop(store, job, r, recovered, done, projected), Write)
            == InLoop(RoundStore(c, store, job, share, r, recovered, projected), job, r, recovered, done + 1,
                      RoundProjected(share, recovered, projected))
  {
    assert job.shares[done..][1..] == job.shares[done + 1..];
  }

  lemma {:induction false} LoopGoesOn(
    c: Context, start: State, store: Store, job: Job, r: CheckResult, recovered: bool, done: nat,
    projected: set<string>)
    requires done < |job.shares| && AfterWrites(c, start, done) == InLoop(store, job, r, recovered, done, projected)
    ensures var share := job.shares[done];
            AfterWrites(c, start, done + 1)
            == InLoop(RoundStore(c, store, job, share, r, recovered, projected), job, r, recovered, done + 1,
                      RoundProjected(share, recovered, projected))
  {
    LoopRound(c, store, job, r, recovered, done, projected);
  }

  lemma ProjectStartsLoop(c: Context, store: Store, job: Job, r: CheckResult, recovered: bool)
    requires !job.local
    ensures var found := State(store, Some(Activity(job, Found(r, recovered))));
            var projected := ShareIds(store.logs, job.provider, job.cycle, job.fingerprint);
            Next(c, found, Project) == InLoop(store, job, r, recovered, 0, projected)
  {
    assert job.shares[0..] == job.shares;
  }

  lemma LoopEnds(c: Context, store: Store, job: Job, r: CheckResult, recovered: bool, projected: set<string>)
    ensures Legal(c, InLoop(store, job, r, recovered, |job.shares|, projected), Finish)
  {
  }

  class UsageJournal {
    var store: Store

    constructor (initial: Store)
      ensures store == initial
    {
      store := initial;
    }

    /**
     * The loop that logs a result for each target of a group, whose push for target `failing` does not succeed.
     * It takes exactly the steps `Write` as far as it comes, and stops short only at a failing push.
     */
    method ProjectToShares(c: Context, job: Job, r: CheckResult, recovered: bool, failing: nat)
      returns (done: nat, output: seq<ShareCheck>)
      requires !job.local
      modifies this
      ensures done <= |job.shares| && (done < |job.shares| ==> done == failing)
      ensures var start := Next(c, State(old(store), Some(Activity(job, Found(r, recovered)))), Project);
              && store == AfterWrites(c, start, done).store
              && (done == |job.shares| ==> Legal(c, AfterWrites(c, start, done), Finish))
      ensures output == Checks(job.shares[..done], r, recovered && QuotaBlocked(r))
    {
      var quotaBlocked := recovered && QuotaBlocked(r);
      var projected := ShareIds(store.logs, job.provider, job.cycle, job.fingerprint);
      ghost var start := InLoop(store, job, r, recovered, 0, projected);
      ProjectStartsLoop(c, store, job, r, recovered);
      done, output := 0, [];
      while done < |job.shares|
        invariant done <= |job.shares|
        invariant AfterWrites(c, start, done) == InLoop(store, job, r, recovered, done, projected)
        invariant output == Checks(job.shares[..done], r, quotaBlocked)
      {
        var share := job.shares[done];
        LoopGoesOn(c, start, store, job, r, recovered, done, projected);
        if share !in projected {
          if done == failing {
            return;
          }
          store := store.(logs := store.logs + [LogFor(c, job, share, r, !quotaBlocked)]);
        }
        if recovered {
          projected := projected + {share};
        }
        ChecksOneMore(job.shares, done, r, quotaBlocked);
        output := output + [ShareCheck(share, r, quotaBlocked)];
        done := done + 1;
      }
      LoopEnds(c, store, job, r, recovered, projected);
    }
  }
}
