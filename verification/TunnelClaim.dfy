/**
 * Claiming a client tunnel: a pending intent is persisted before the claim is sent, and an uncertain outcome is
 * settled by reading the router's view.
 *
 * The configuration is kept in memory and on disk; a write may fail before or after it reached the disk. One claim
 * lock admits one activity at a time. Configuration changes, cancelled activities and restarts come between any two
 * steps.
 */
module TunnelClaim {
  import opened Prelude
  import opened Text

  datatype Intent = Intent(installation: string, routerBase: string, owner: string, subdomain: string)

  /** `Connected` stands for every later status of a claimed tunnel: connected, active or running. */
  datatype Status = Unset | ClaimPending | ClaimedRemote | Connected | ClaimFailed | ClaimConflict | ClaimSkipped

  /** `current` is the intent the configuration itself describes, when it describes one. */
  datatype Config = Config(current: Option<Intent>, pending: Option<Intent>, status: Status)

  // ----------------------------------------------------------------- the router's view

  datatype View = View(owner: string, subdomain: string, enabled: bool)

  predicate RemoteMatches(remote: Option<View>, x: Intent) {
    remote.Some? && EqIgnoreCase(remote.value.owner, x.owner)
    && remote.value.subdomain == x.subdomain && remote.value.enabled
  }

  datatype Reading = Viewed(remote: Option<View>) | ReadFailed

  /** The reading shows an enabled tunnel of the intent's owner, whatever the case of letters, and its subdomain. */
  predicate Shows(reading: Reading, x: Intent) {
    && reading.Viewed? && reading.remote.Some?
    && SameLetters(reading.remote.value.owner, x.owner)
    && reading.remote.value.subdomain == x.subdomain
    && reading.remote.value.enabled
  }

  lemma ShowsExactly(reading: Reading, x: Intent)
    ensures Shows(reading, x) <==> reading.Viewed? && RemoteMatches(reading.remote, x)
  {
    if reading.Viewed? && reading.remote.Some? {
      EqIgnoreCaseExactly(reading.remote.value.owner, x.owner);
    }
  }

  datatype Answer = Accepted | Conflict | Lost | Refused

  /** A conflict may be the echo of an earlier claim of ours, so it settles nothing. */
  predicate Uncertain(a: Answer) { a.Conflict? || a.Lost? }

  datatype Owner = Bound | Unreachable | OwnerRefused

  /** How a configuration write ends. */
  datatype Persist = Stored | NotStored | StoredLate

  // -------------------------------------------------------------------- the activity

  datatype Pc =
    | Reconciling                     // pending already: read before anything else
    | Failing(again: bool, conflict: bool)
    | Recheck
    | Confirming                      // claimed already: read once more
    | Beginning
    | CheckingOwner
    | Ready
    | Sent
    | Rereading(conflict: bool)
    | Committing(retry: bool)
    | Retaining

  datatype Activity = Activity(intent: Intent, pc: Pc)

  /**
   * The last three are history that no step of the program reads: the intents sent whose fate is unknown, those the
   * router has confirmed, and whether the described intent changed since the activity recorded its own as pending.
   */
  datatype State = State(
    mem: Config, disk: Config, activity: Option<Activity>,
    open: set<Intent>, confirmed: set<Intent>, changed: bool)

  datatype Event =
    | Start                           // claim_client_tunnel_config takes the lock
    | StartReconcile                  // reconcile_pending_client_tunnel_claim takes the lock
    | Read(reading: Reading)
    | Write(persist: Persist)         // the configuration write the activity is at
    | Look                            // the configuration is read again
    | AskOwner(owner: Owner)
    | Send
    | Receive(answer: Answer)
    | Change(current: Option<Intent>, status: Status, keep: bool, persist: Persist)
    | Cancel
    | Restart

  function After(c: Config): Pc {
    if c.pending == None && c.status in {ClaimedRemote, Connected} then Confirming else Beginning
  }

  /** `ensure_current_client_tunnel_claim`. */
  predicate IsCurrent(c: Config, x: Intent) { c.pending == Some(x) && c.current == Some(x) }

  predicate Writes(pc: Pc) { pc.Beginning? || pc.Failing? || pc.Committing? || pc.Retaining? }

  /** What a write would store, when its check passes. */
  function Candidate(c: Config, a: Activity): Option<Config>
    requires Writes(a.pc)
  {
    match a.pc
    case Beginning =>
      if c.current == Some(a.intent) then Some(c.(pending := Some(a.intent), status := ClaimPending)) else None
    case Failing(_, conflict) =>
      if IsCurrent(c, a.intent)
      then Some(c.(pending := None, status := if conflict then ClaimConflict else ClaimFailed)) else None
    case Committing(_) => if IsCurrent(c, a.intent) then Some(c.(pending := None, status := ClaimedRemote)) else None
    case Retaining => if IsCurrent(c, a.intent) then Some(c.(status := ClaimPending)) else None
  }

  /** Where an activity goes after its write; None ends it. */
  function Continue(a: Activity, ok: bool): Option<Pc>
    requires Writes(a.pc)
  {
    match a.pc
    case Beginning => if ok then Some(CheckingOwner) else None
    case Failing(again, _) => if ok && again then Some(Recheck) else None
    case Committing(retry) => if !ok && retry then Some(Rereading(false)) else None
    case Retaining => None
  }

  /** Where an activity goes after a reading. */
  function Judged(a: Activity, reading: Reading): Option<Pc>
    requires Reads(a.pc)
  {
    var matched := reading.Viewed? && RemoteMatches(reading.remote, a.intent);
    if a.pc.Confirming? then (if matched then None else Some(Beginning))
    else if matched then Some(Committing(false))
    else if reading.ReadFailed? then Some(Retaining)
    else if a.pc.Reconciling? then Some(Failing(true, false))
    else Some(Failing(false, a.pc.conflict))
  }

  predicate Reads(pc: Pc) { pc.Reconciling? || pc.Rereading? || pc.Confirming? }

  predicate Legal(s: State, e: Event) {
    match e
    case Start => s.activity == None && s.mem.current.Some?
    case StartReconcile => s.activity == None && s.mem.pending.Some? && s.mem.pending == s.mem.current
    case Read(_) => s.activity.Some? && Reads(s.activity.value.pc)
    case Write(_) => s.activity.Some? && Writes(s.activity.value.pc)
    case Look => s.activity.Some? && s.activity.value.pc.Recheck?
    case AskOwner(_) => s.activity.Some? && s.activity.value.pc.CheckingOwner?
    case Send => s.activity.Some? && s.activity.value.pc.Ready?
    case Receive(_) => s.activity.Some? && s.activity.value.pc.Sent?
    case Change(_, _, _, _) => true
    case Cancel => s.activity.Some?
    case Restart => true
  }

  function Moved(s: State, to: Option<Pc>): State
    requires s.activity.Some?
  {
    s.(activity := if to.Some? then Some(s.activity.value.(pc := to.value)) else None)
  }

  /** A write of `candidate`, with memory following the disk only on success. */
  function Persisted(s: State, candidate: Config, persist: Persist): State {
    match persist
    case Stored => s.(mem := candidate, disk := candidate)
    case NotStored => s
    case StoredLate => s.(disk := candidate)
  }

  /** A change of what the configuration describes; only then may the pending intent go. */
  function Changed(c: Config, current: Option<Intent>, status: Status, keep: bool): Config {
    if current == c.current then c.(status := status)
    else Config(current, if keep then c.pending else None, status)
  }

  function Do(s: State, e: Event): State
    requires Legal(s, e)
  {
    match e
    case Start =>
      var x := s.mem.current.value;
      s.(activity := Some(Activity(x, if s.mem.pending == Some(x) then Reconciling else After(s.mem))))
    case StartReconcile => s.(activity := Some(Activity(s.mem.pending.value, Rereading(false))))
    case Read(reading) =>
      var a := s.activity.value;
      var seen := Moved(s, Judged(a, reading));
      if reading.ReadFailed? then seen
      else if RemoteMatches(reading.remote, a.intent)
      then seen.(open := s.open - {a.intent}, confirmed := s.confirmed + {a.intent})
      else seen.(open := s.open - {a.intent})
    case Write(persist) =>
      var a := s.activity.value;
      var candidate := Candidate(s.mem, a);
      if candidate == None then Moved(s, Continue(a, false))
      else
        var moved := Moved(Persisted(s, candidate.value, persist), Continue(a, persist.Stored?));
        if a.pc.Beginning? then moved.(changed := false) else moved
    case Look => Moved(s, Some(After(s.mem)))
    case AskOwner(owner) =>
      Moved(s, Some(if owner.Bound? then Ready else if owner.Unreachable? then Retaining else Failing(false, false)))
    case Send =>
      var sent := Moved(s, Some(Sent));
      if s.changed then sent else sent.(open := s.open + {s.activity.value.intent})
    case Receive(answer) =>
      var x := s.activity.value.intent;
      if Uncertain(answer) then Moved(s, Some(Rereading(answer.Conflict?)))
      else if answer.Accepted?
      then Moved(s, Some(Committing(true))).(open := s.open - {x}, confirmed := s.confirmed + {x})
      else Moved(s, Some(Failing(false, false))).(open := s.open - {x})
    case Change(current, status, keep, persist) =>
      var changed := Persisted(s, Changed(s.mem, current, status, keep), persist);
      if current == s.mem.current || persist.NotStored? then changed else changed.(open := {}, changed := true)
    case Cancel => s.(activity := None)
    case Restart => s.(mem := s.disk, activity := None)
  }

  function Next(s: State, e: Event): State { if Legal(s, e) then Do(s, e) else s }

  function Reached(start: State, run: seq<Event>): State {
    if run == [] then start else Next(Reached(start, run[..|run| - 1]), run[|run| - 1])
  }

  // -------------------------------------------------------------------- the invariant

  ghost predicate OpenIsPending(s: State) {
    forall x :: x in s.open ==> IsCurrent(s.mem, x) && IsCurrent(s.disk, x)
  }

  /** Only an activity that reads or has just sent may find its own intent open. */
  predicate MayBeOpen(pc: Pc) { pc.Reconciling? || pc.Sent? || pc.Rereading? || pc.Retaining? }

  ghost predicate Inv(s: State) {
    && OpenIsPending(s)
    && (s.activity.Some? ==>
          var Activity(x, pc) := s.activity.value;
          && (MayBeOpen(pc) || x !in s.open)
          && (pc.Committing? ==> x in s.confirmed)
          && ((pc.CheckingOwner? || pc.Ready?) && !s.changed ==> IsCurrent(s.mem, x) && IsCurrent(s.disk, x)))
  }

  lemma StepKeepsOpenPending(s: State, e: Event)
    requires Inv(s)
    ensures OpenIsPending(Next(s, e))
  {
  }

  lemma StepKeepsInv(s: State, e: Event)
    requires Inv(s)
    ensures Inv(Next(s, e))
  {
    StepKeepsOpenPending(s, e);
  }

  ghost predicate Fresh(s: State) { s.activity == None && s.open == {} }

  lemma {:induction false} EveryRunKeepsInv(start: State, run: seq<Event>)
    requires Fresh(start)
    ensures Inv(Reached(start, run))
  {
    if run != [] {
      EveryRunKeepsInv(start, run[..|run| - 1]);
      StepKeepsInv(Reached(start, run[..|run| - 1]), run[|run| - 1]);
    }
  }

  // ------------------------------------------------------------------ the main results

  predicate Concerns(s: State, x: Intent) { s.activity.Some? && s.activity.value.intent == x }

  predicate Sends(s: State, e: Event, x: Intent) { e.Send? && Legal(s, e) && Concerns(s, x) }

  /** The router's view is read for the intent. */
  predicate ReadsView(s: State, e: Event, x: Intent) { e.Read? && Legal(s, e) && Concerns(s, x) && e.reading.Viewed? }

  predicate Confirms(s: State, e: Event, x: Intent) { ReadsView(s, e, x) && Shows(e.reading, x) }

  predicate Denies(s: State, e: Event, x: Intent) { ReadsView(s, e, x) && !Shows(e.reading, x) }

  /** A definite answer to the intent's claim. */
  predicate Answers(s: State, e: Event, x: Intent) {
    e.Receive? && Legal(s, e) && Concerns(s, x) && !Uncertain(e.answer)
  }

  /** What the configuration describes changes, in memory or on disk. */
  predicate Reconfigures(s: State, e: Event) {
    e.Change? && e.current != s.mem.current && !e.persist.NotStored?
  }

  predicate Settles(s: State, e: Event, x: Intent) { ReadsView(s, e, x) || Answers(s, e, x) || Reconfigures(s, e) }

  lemma OpenUntilSettled(s: State, e: Event, x: Intent)
    requires x in s.open && !Settles(s, e, x)
    ensures x in Next(s, e).open
  {
  }

  /** No event from `from` on settles the intent. */
  ghost predicate Unsettled(start: State, run: seq<Event>, from: nat, x: Intent) {
    forall t :: from <= t < |run| ==> !Settles(Reached(start, run[..t]), run[t], x)
  }

  lemma {:induction false} StaysOpen(start: State, run: seq<Event>, i: nat, x: Intent)
    requires i < |run| && Sends(Reached(start, run[..i]), run[i], x) && !Reached(start, run[..i]).changed
    requires Unsettled(start, run, i + 1, x)
    ensures x in Reached(start, run).open
  {
    var front, e := run[..|run| - 1], run[|run| - 1];
    if i == |front| {
      assert run[..i] == front;
    } else {
      assert forall t :: 0 <= t < |front| ==> front[t] == run[t] && front[..t] == run[..t];
      StaysOpen(start, front, i, x);
      assert run[..|front|] == front;
      OpenUntilSettled(Reached(start, front), e, x);
    }
  }

  /**
   * An intent whose claim was sent stays recorded as pending, in memory and on disk, through failed writes,
   * cancelled activities and restarts, until the router's view is read for it, a definite answer to it arrives
   * or the configuration changes.
   */
  lemma {:induction false} SentStaysPending(start: State, run: seq<Event>, i: nat, x: Intent)
    requires Fresh(start) && i < |run|
    requires Sends(Reached(start, run[..i]), run[i], x) && !Reached(start, run[..i]).changed
    requires Unsettled(start, run, i + 1, x)
    ensures var s := Reached(start, run);
            s.mem.pending == Some(x) && s.disk.pending == Some(x) && s.mem.current == s.disk.current == Some(x)
  {
    StaysOpen(start, run, i, x);
    EveryRunKeepsInv(start, run);
  }

  /** Between two sends of one intent something settled the first. */
  lemma {:induction false} SecondSendIsAfterSettling(start: State, run: seq<Event>, i: nat, j: nat, x: Intent)
    returns (t: nat)
    requires Fresh(start) && i < j < |run|
    requires Sends(Reached(start, run[..i]), run[i], x) && !Reached(start, run[..i]).changed
    requires Sends(Reached(start, run[..j]), run[j], x)
    ensures i < t < j && Settles(Reached(start, run[..t]), run[t], x)
  {
    var front := run[..j];
    assert forall t :: 0 <= t < j ==> front[t] == run[t] && front[..t] == run[..t];
    EveryRunKeepsInv(start, front);
    if Unsettled(start, front, i + 1, x) {
      StaysOpen(start, front, i, x);
      assert false;
    }
    t :| i + 1 <= t < |front| && Settles(Reached(start, front[..t]), front[t], x);
  }

  /**
   * A claim whose outcome is uncertain, and which no reading has confirmed, is sent again only after the router's
   * view was read and did not show it.
   */
  lemma {:induction false} ResentOnlyAfterDenial(start: State, run: seq<Event>, i: nat, j: nat, x: Intent)
    returns (t: nat)
    requires Fresh(start) && i < j < |run|
    requires Sends(Reached(start, run[..i]), run[i], x) && !Reached(start, run[..i]).changed
    requires Sends(Reached(start, run[..j]), run[j], x)
    requires forall t :: i < t < j ==>
               var s := Reached(start, run[..t]);
               !Answers(s, run[t], x) && !Reconfigures(s, run[t]) && !Confirms(s, run[t], x)
    ensures i < t < j && Denies(Reached(start, run[..t]), run[t], x)
  {
    t := SecondSendIsAfterSettling(start, run, i, j, x);
  }

  /** Success is committed only for an intent the router accepted or showed. */
  lemma {:induction false} SuccessOnlyWhenConfirmed(start: State, run: seq<Event>)
    requires Fresh(start) && start.confirmed == {}
    requires var s := Reached(start, run); s.activity.Some? && s.activity.value.pc.Committing?
    ensures exists t :: 0 <= t < |run| &&
              var s, x := Reached(start, run[..t]), Reached(start, run).activity.value.intent;
              && Legal(s, run[t]) && s.activity.Some? && s.activity.value.intent == x
              && (run[t] == Receive(Accepted) || (run[t].Read? && Shows(run[t].reading, x)))
  {
    EveryRunKeepsInv(start, run);
    var t := ConfirmedOnce(start, run, Reached(start, run).activity.value.intent);
  }

  lemma {:induction false} ConfirmedOnce(start: State, run: seq<Event>, x: Intent) returns (t: nat)
    requires start.confirmed == {} && x in Reached(start, run).confirmed
    ensures t < |run| &&
            var s := Reached(start, run[..t]);
            Confirms(s, run[t], x) || (Answers(s, run[t], x) && run[t].answer.Accepted?)
  {
    var front := run[..|run| - 1];
    if x in Reached(start, front).confirmed {
      t := ConfirmedOnce(start, front, x);
      assert front[..t] == run[..t] && front[t] == run[t];
    } else {
      t := |front|;
      NewlyConfirmed(Reached(start, front), run[t], x);
    }
  }

  lemma NewlyConfirmed(s: State, e: Event, x: Intent)
    requires x in Next(s, e).confirmed && x !in s.confirmed
    ensures Confirms(s, e, x) || (Answers(s, e, x) && e.answer.Accepted?)
  {
    if e.Read? {
      ShowsExactly(e.reading, x);
    }
  }

  lemma {:induction false} Extend(start: State, run: seq<Event>, e: Event)
    ensures Reached(start, run + [e]) == Next(Reached(start, run), e)
  {
    assert (run + [e])[..|run|] == run;
  }

  lemma {:induction false} ReachedConcat(start: State, a: seq<Event>, b: seq<Event>)
    ensures Reached(start, a + b) == Reached(Reached(start, a), b)
  {
    if b == [] {
      assert a + b == a;
    } else {
      ReachedConcat(start, a, b[..|b| - 1]);
      assert (a + b)[..|a + b| - 1] == a + b[..|b| - 1];
    }
  }

  /** The event gives no definite answer, changes no configuration and shows no other tunnel. */
  predicate Quiet(e: Event, x: Intent) {
    && !e.Change? && (e.Receive? ==> Uncertain(e.answer))
    && (e.Read? ==> e.reading.ReadFailed? || RemoteMatches(e.reading.remote, x))
  }

  lemma QuietSettlesNothing(s: State, e: Event, x: Intent)
    requires Quiet(e, x)
    ensures !Answers(s, e, x) && !Reconfigures(s, e) && !Denies(s, e, x)
  {
    if e.Read? {
      ShowsExactly(e.reading, x);
    }
  }

  function Shown(x: Intent): Reading { Viewed(Some(View(x.owner, x.subdomain, true))) }

  /** From recording the intent to sending the claim. */
  function Sending(): seq<Event> { [Write(Stored), AskOwner(Bound), Send] }

  /** A call that sends the claim with no denial: a pending one is first confirmed, a claimed one cannot be read. */
  function Again(c: Config, x: Intent): seq<Event> {
    if c.pending == Some(x) then [Start, Read(Shown(x)), Write(Stored)] + ([Start, Read(ReadFailed)] + Sending())
    else if After(c).Confirming? then [Start, Read(ReadFailed)] + Sending()
    else [Start] + Sending()
  }

  lemma {:induction false} OneStep(s: State, a: Event)
    ensures Reached(s, [a]) == Next(s, a)
  {
    Extend(s, [], a);
    assert [] + [a] == [a];
  }

  lemma {:induction false} TwoSteps(s: State, a: Event, b: Event)
    ensures Reached(s, [a, b]) == Next(Next(s, a), b)
  {
    OneStep(s, a);
    Extend(s, [a], b);
    assert [a] + [b] == [a, b];
  }

  lemma {:induction false} ThreeSteps(s: State, a: Event, b: Event, c: Event)
    ensures Reached(s, [a, b, c]) == Next(Next(Next(s, a), b), c)
  {
    TwoSteps(s, a, b);
    Extend(s, [a, b], c);
    assert [a, b] + [c] == [a, b, c];
  }

  predicate IsAt(s: State, x: Intent, pc: Pc) {
    s.activity == Some(Activity(x, pc)) && s.mem.current == Some(x)
  }

  /** The run's last event sends the claim of the intent. */
  ghost predicate EndsInSend(s: State, run: seq<Event>, x: Intent) {
    run != [] && Sends(Reached(s, run[..|run| - 1]), run[|run| - 1], x)
  }

  lemma {:induction false} EndsLater(s: State, a: seq<Event>, b: seq<Event>, x: Intent)
    requires EndsInSend(Reached(s, a), b, x)
    ensures EndsInSend(s, a + b, x)
  {
    ReachedConcat(s, a, b[..|b| - 1]);
    assert (a + b)[..|a + b| - 1] == a + b[..|b| - 1];
  }

  lemma {:induction false} SendingSends(s: State, x: Intent)
    requires IsAt(s, x, Beginning)
    ensures EndsInSend(s, Sending(), x)
  {
    TwoSteps(s, Write(Stored), AskOwner(Bound));
    assert Sending()[..2] == [Write(Stored), AskOwner(Bound)];
  }

  lemma {:induction false} UnreadSends(s: State, x: Intent)
    requires s.activity == None && s.mem.current == Some(x) && s.mem.pending != Some(x) && After(s.mem).Confirming?
    ensures EndsInSend(s, [Start, Read(ReadFailed)] + Sending(), x)
  {
    TwoSteps(s, Start, Read(ReadFailed));
    SendingSends(Reached(s, [Start, Read(ReadFailed)]), x);
    EndsLater(s, [Start, Read(ReadFailed)], Sending(), x);
  }

  lemma {:induction false} ConfirmedThenUnread(s: State, x: Intent)
    requires s.activity == None && s.mem.current == Some(x) && s.mem.pending == Some(x)
    ensures var t := Reached(s, [Start, Read(Shown(x)), Write(Stored)]);
            t.activity == None && t.mem == Config(Some(x), None, ClaimedRemote)
  {
    ThreeSteps(s, Start, Read(Shown(x)), Write(Stored));
  }

  /** Whatever state a process is idle in, the claim of the intent it describes can be sent without a denial. */
  lemma {:induction false} AgainSends(s: State, x: Intent)
    requires s.activity == None && s.mem.current == Some(x)
    ensures EndsInSend(s, Again(s.mem, x), x)
  {
    if s.mem.pending == Some(x) {
      var confirming := [Start, Read(Shown(x)), Write(Stored)];
      ConfirmedThenUnread(s, x);
      UnreadSends(Reached(s, confirming), x);
      EndsLater(s, confirming, [Start, Read(ReadFailed)] + Sending(), x);
    } else if After(s.mem).Confirming? {
      UnreadSends(s, x);
    } else {
      OneStep(s, Start);
      SendingSends(Reached(s, [Start]), x);
      EndsLater(s, [Start], Sending(), x);
    }
  }

  lemma AgainIsQuiet(c: Config, x: Intent)
    ensures forall t :: 0 <= t < |Again(c, x)| ==> Quiet(Again(c, x)[t], x)
  {
  }

  /**
   * A confirming reading is a real alternative to a denial. From every reached idle state whose configuration still
   * describes the intent, and however its claim was sent and confirmed before, some continuation sends it again with
   * no denial, no definite answer and no configuration change on the way: a later call confirms it if it is still
   * pending, and then cannot read the router's view.
   */
  lemma {:induction false} ConfirmedClaimMayBeSentAgain(start: State, run: seq<Event>, x: Intent)
    returns (more: seq<Event>)
    requires Reached(start, run).activity == None && Reached(start, run).mem.current == Some(x)
    ensures EndsInSend(start, run + more, x) && more != []
    ensures forall t :: |run| <= t < |run + more| ==>
              var s, e := Reached(start, (run + more)[..t]), (run + more)[t];
              !Answers(s, e, x) && !Reconfigures(s, e) && !Denies(s, e, x)
  {
    var s := Reached(start, run);
    more := Again(s.mem, x);
    AgainSends(s, x);
    EndsLater(start, run, more, x);
    AgainIsQuiet(s.mem, x);
    forall t | |run| <= t < |run + more|
      ensures var s, e := Reached(start, (run + more)[..t]), (run + more)[t];
              !Answers(s, e, x) && !Reconfigures(s, e) && !Denies(s, e, x)
    {
      assert (run + more)[t] == more[t - |run|];
      QuietSettlesNothing(Reached(start, (run + more)[..t]), (run + more)[t], x);
    }
  }

  // -------------------------------------------------------------- the call, as it runs

  function Went(a: Activity, ok: bool): Option<Activity>
    requires Writes(a.pc)
  {
    var to := Continue(a, ok);
    if to.Some? then Some(Activity(a.intent, to.value)) else None
  }

  /** What a write does to the two copies, and where its activity goes. */
  lemma WriteEffect(s: State, persist: Persist)
    requires s.activity.Some? && Writes(s.activity.value.pc)
    ensures var candidate, after := Candidate(s.mem, s.activity.value), Next(s, Write(persist));
            && after.mem == (if candidate.Some? && persist.Stored? then candidate.value else s.mem)
            && after.disk == (if candidate.Some? && !persist.NotStored? then candidate.value else s.disk)
            && after.activity == Went(s.activity.value, candidate.Some? && persist.Stored?)
  {
  }

  /** What the network and the disk answer during one call. */
  datatype Replies = Replies(
    first: Reading, confirm: Reading, reread: Reading, owner: Owner, answer: Answer,
    dropped: Persist, begun: Persist, ended: Persist, retried: Persist)

  // What a call makes of the configuration, in terms of the views read and the answers received.

  predicate Current(c: Config, x: Intent) { c.pending == Some(x) && c.current == Some(x) }

  /** The claim is settled by a reading: success, failure, or still pending. */
  function Settled(c: Config, x: Intent, conflict: bool, reading: Reading): Config {
    if reading.ReadFailed? then c.(status := ClaimPending)
    else if Shows(reading, x) then c.(pending := None, status := ClaimedRemote)
    else c.(pending := None, status := if conflict then ClaimConflict else ClaimFailed)
  }

  datatype Ending = Ending(config: Config, ok: bool)

  /** What is in memory after a write: the new configuration only when it was stored. */
  function InMemory(c: Config, target: Config, persist: Persist): Config { if persist.Stored? then target else c }

  /** From sending the claim of a recorded intent. */
  function EndingOfSend(c: Config, x: Intent, r: Replies): Ending {
    match r.answer
    case Accepted =>
      if r.ended.Stored? then Ending(c.(pending := None, status := ClaimedRemote), true)
      else Ending(InMemory(c, Settled(c, x, false, r.reread), r.retried), Shows(r.reread, x) && r.retried.Stored?)
    case Conflict =>
      Ending(InMemory(c, Settled(c, x, true, r.reread), r.ended), Shows(r.reread, x) && r.ended.Stored?)
    case Lost =>
      Ending(InMemory(c, Settled(c, x, false, r.reread), r.ended), Shows(r.reread, x) && r.ended.Stored?)
    case Refused => Ending(InMemory(c, c.(pending := None, status := ClaimFailed), r.ended), false)
  }

  /** From recording the intent. */
  function EndingOfBegin(c: Config, x: Intent, r: Replies): Ending {
    var recorded := c.(pending := Some(x), status := ClaimPending);
    if c.current != Some(x) || !r.begun.Stored? then Ending(c, false)
    else
      match r.owner
      case Bound => EndingOfSend(recorded, x, r)
      case Unreachable => Ending(recorded, false)
      case OwnerRefused => Ending(InMemory(recorded, recorded.(pending := None, status := ClaimFailed), r.ended), false)
  }

  /** From the look at a tunnel that is claimed already. */
  function EndingOfConfirm(c: Config, x: Intent, r: Replies): Ending {
    if c.pending == None && (c.status == ClaimedRemote || c.status == Connected) && Shows(r.confirm, x)
    then Ending(c, true)
    else EndingOfBegin(c, x, r)
  }

  /** The whole call. */
  function EndingOfClaim(c: Config, r: Replies): Ending {
    if c.current == None then Ending(c, false)
    else
      var x := c.current.value;
      if c.pending != Some(x) then EndingOfConfirm(c, x, r)
      else
        var first := InMemory(c, Settled(c, x, false, r.first), r.dropped);
        if r.first.ReadFailed? || Shows(r.first, x) || !r.dropped.Stored?
        then Ending(first, Shows(r.first, x) && r.dropped.Stored?)
        else EndingOfConfirm(first, x, r)
  }

  /** A view that differs from the intent in the owner, the subdomain or being enabled denies the claim. */
  lemma DifferingViewDenies(c: Config, x: Intent, conflict: bool, view: View)
    requires !SameLetters(view.owner, x.owner) || view.subdomain != x.subdomain || !view.enabled
    ensures Settled(c, x, conflict, Viewed(Some(view)))
         == Config(c.current, None, if conflict then ClaimConflict else ClaimFailed)
    ensures Settled(c, x, conflict, Viewed(None)) == Settled(c, x, conflict, Viewed(Some(view)))
  {
  }

  /** A view that agrees in all three, whatever the case of the owner's letters, completes it. */
  lemma AgreeingViewClaims(c: Config, x: Intent, conflict: bool, view: View)
    requires SameLetters(view.owner, x.owner) && view.subdomain == x.subdomain && view.enabled
    ensures Settled(c, x, conflict, Viewed(Some(view))) == Config(c.current, None, ClaimedRemote)
  {
  }

  /** The claim is sent and gets through: accepted and stored, or uncertain or unstored and then shown and stored. */
  predicate GetsThrough(x: Intent, r: Replies) {
    && r.begun.Stored? && r.owner.Bound?
    && match r.answer
       case Accepted => r.ended.Stored? || (Shows(r.reread, x) && r.retried.Stored?)
       case Conflict => Shows(r.reread, x) && r.ended.Stored?
       case Lost => Shows(r.reread, x) && r.ended.Stored?
       case Refused => false
  }

  /**
   * When a call succeeds: exactly when a pending claim is shown and stored, or a claimed tunnel is shown, or the claim
   * gets through; a pending one is sent again only after a reading that denied it was stored.
   */
  lemma ClaimSucceedsExactly(c: Config, r: Replies)
    ensures EndingOfClaim(c, r).ok <==>
            c.current.Some? &&
            var x := c.current.value;
            if c.pending == Some(x)
            then r.dropped.Stored? && (Shows(r.first, x) || (r.first.Viewed? && GetsThrough(x, r)))
            else (c.pending == None && c.status in {ClaimedRemote, Connected} && Shows(r.confirm, x))
                 || GetsThrough(x, r)
  {
  }

  class ClaimState {
    var mem: Config
    var disk: Config
    ghost const origin: State
    ghost var model: State
    ghost var trace: seq<Event>

    constructor (initial: Config)
      ensures mem == disk == initial && Idle() && Fresh(origin)
    {
      mem, disk, trace := initial, initial, [];
      model := State(initial, initial, None, {}, {}, false);
      origin := State(initial, initial, None, {}, {}, false);
    }

    /** The fields are those of a model state that the events so far lead to. */
    ghost predicate Valid() reads this {
      model.mem == mem && model.disk == disk && model == Reached(origin, trace)
    }

    /** No call holds the claim lock. */
    ghost predicate Idle() reads this { Valid() && model.activity == None }

    /** At this point of the call the model is at `pc`, for `x`. */
    ghost predicate Stands(x: Intent, pc: Pc) reads this { Valid() && model.activity == Some(Activity(x, pc)) }

    ghost method Take(e: Event)
      requires model == Reached(origin, trace)
      modifies this`model, this`trace
      ensures model == Next(old(model), e) && trace == old(trace) + [e] && model == Reached(origin, trace)
    {
      Extend(origin, trace, e);
      model, trace := Next(model, e), trace + [e];
    }

    /** `mutate_config_immediate`, given what the mutation makes of the configuration in memory. */
    method Mutate(candidate: Option<Config>, persist: Persist) returns (ok: bool)
      requires Valid() && model.activity.Some? && Writes(model.activity.value.pc)
      requires candidate == Candidate(mem, model.activity.value)
      modifies this
      ensures Valid() && model == Next(old(model), Write(persist)) && trace == old(trace) + [Write(persist)]
      ensures ok == (candidate.Some? && persist.Stored?)
      ensures mem == if ok then candidate.value else old(mem)
      ensures disk == if candidate.Some? && !persist.NotStored? then candidate.value else old(disk)
      ensures model.activity == Went(old(model).activity.value, ok)
    {
      WriteEffect(model, persist);
      ghost var after := Next(model, Write(persist));
      ok := candidate.Some? && persist.Stored?;
      if candidate.Some? && !persist.NotStored? {
        disk := candidate.value;
      }
      if ok {
        mem := candidate.value;
      }
      assert after.mem == mem && after.disk == disk;
      Take(Write(persist));
    }

    method CommitSuccess(x: Intent, ghost retry: bool, persist: Persist) returns (ok: bool)
      requires Stands(x, Committing(retry))
      modifies this
      ensures Valid() && model == Next(old(model), Write(persist)) && trace == old(trace) + [Write(persist)]
      ensures ok == (Current(old(mem), x) && persist.Stored?)
      ensures var target := old(mem).(pending := None, status := ClaimedRemote);
              && mem == (if Current(old(mem), x) && persist.Stored? then target else old(mem))
              && disk == (if Current(old(mem), x) && !persist.NotStored? then target else old(disk))
    {
      var candidate := if IsCurrent(mem, x) then Some(mem.(pending := None, status := ClaimedRemote)) else None;
      ok := Mutate(candidate, persist);
    }

    method CommitFailure(x: Intent, ghost again: bool, conflict: bool, persist: Persist) returns (ok: bool)
      requires Stands(x, Failing(again, conflict))
      modifies this
      ensures Valid() && model == Next(old(model), Write(persist)) && trace == old(trace) + [Write(persist)]
      ensures ok == (Current(old(mem), x) && persist.Stored?)
      ensures var target := old(mem).(pending := None, status := if conflict then ClaimConflict else ClaimFailed);
              && mem == (if Current(old(mem), x) && persist.Stored? then target else old(mem))
              && disk == (if Current(old(mem), x) && !persist.NotStored? then target else old(disk))
    {
      var candidate :=
        if IsCurrent(mem, x) then Some(mem.(pending := None, status := if conflict then ClaimConflict else ClaimFailed))
        else None;
      ok := Mutate(candidate, persist);
    }

    method RetainPending(x: Intent, persist: Persist)
      requires Stands(x, Retaining)
      modifies this
      ensures Valid() && model == Next(old(model), Write(persist)) && trace == old(trace) + [Write(persist)]
      ensures var target := old(mem).(status := ClaimPending);
              && mem == (if Current(old(mem), x) && persist.Stored? then target else old(mem))
              && disk == (if Current(old(mem), x) && !persist.NotStored? then target else old(disk))
    {
      var candidate := if IsCurrent(mem, x) then Some(mem.(status := ClaimPending)) else None;
      var _ := Mutate(candidate, persist);
    }

    /** Settling an uncertain outcome by the router's view. */
    method Settle(x: Intent, conflict: bool, reading: Reading, persist: Persist) returns (ok: bool)
      requires Stands(x, Rereading(conflict))
      modifies this
      ensures Valid() && model.activity == None
      ensures trace == old(trace) + [Read(reading), Write(persist)]
      ensures model == Next(Next(old(model), Read(reading)), Write(persist))
      ensures ok <==> Current(old(mem), x) && persist.Stored? && Shows(reading, x)
      ensures var target := Settled(old(mem), x, conflict, reading);
              && mem == (if Current(old(mem), x) && persist.Stored? then target else old(mem))
              && disk == (if Current(old(mem), x) && !persist.NotStored? then target else old(disk))
    {
      ShowsExactly(reading, x);
      Take(Read(reading));
      ok := false;
      if reading.ReadFailed? {
        RetainPending(x, persist);
      } else if RemoteMatches(reading.remote, x) {
        ok := CommitSuccess(x, false, persist);
      } else {
        var _ := CommitFailure(x, false, conflict, persist);
      }
    }

    /** Sending the claim of a recorded intent, and what follows from the answer. */
    method SendClaim(x: Intent, r: Replies) returns (ok: bool)
      requires Stands(x, Ready) && Current(mem, x)
      modifies this
      ensures Idle() && Ending(mem, ok) == EndingOfSend(old(mem), x, r)
    {
      Take(Send);
      Take(Receive(r.answer));
      ok := false;
      if r.answer.Accepted? {
        ok := CommitSuccess(x, true, r.ended);
        if !ok {
          ok := Settle(x, false, r.reread, r.retried);
        }
      } else if Uncertain(r.answer) {
        ok := Settle(x, r.answer.Conflict?, r.reread, r.ended);
      } else {
        var _ := CommitFailure(x, false, false, r.ended);
      }
    }

    /** Recording the intent, checking the owner and sending. */
    method BeginAndSend(x: Intent, r: Replies) returns (ok: bool)
      requires Stands(x, Beginning)
      modifies this
      ensures Idle() && Ending(mem, ok) == EndingOfBegin(old(mem), x, r)
    {
      var candidate := if mem.current == Some(x) then Some(mem.(pending := Some(x), status := ClaimPending)) else None;
      var begun := Mutate(candidate, r.begun);
      if !begun {
        return false;
      }
      Take(AskOwner(r.owner));
      ok := false;
      if r.owner.Bound? {
        ok := SendClaim(x, r);
      } else if r.owner.Unreachable? {
        RetainPending(x, r.ended);
      } else {
        var _ := CommitFailure(x, false, false, r.ended);
      }
    }

    /**
     * `claim_client_tunnel_config`, once the installation is registered. Every path through it is a run of the
     * model.
     */
    method Claim(r: Replies) returns (ok: bool)
      requires Idle()
      modifies this
      ensures Idle() && Ending(mem, ok) == EndingOfClaim(old(mem), r)
    {
      if mem.current == None {
        return false;
      }
      var x := mem.current.value;
      Take(Start);
      if mem.pending == Some(x) {
        var settled: bool;
        settled, ok := ResolvePending(x, r.first, r.dropped);
        if settled {
          return;
        }
      }
      ok := ConfirmOrSend(x, r);
    }

    /** A claim already pending is read for first; only a denial that was recorded lets the call go on. */
    method ResolvePending(x: Intent, reading: Reading, persist: Persist) returns (settled: bool, ok: bool)
      requires Stands(x, Reconciling) && Current(mem, x)
      modifies this
      ensures if settled then Idle() else Stands(x, After(mem))
      ensures settled <==> reading.ReadFailed? || Shows(reading, x) || !persist.Stored?
      ensures ok <==> Shows(reading, x) && persist.Stored?
      ensures mem == InMemory(old(mem), Settled(old(mem), x, false, reading), persist)
    {
      ShowsExactly(reading, x);
      Take(Read(reading));
      settled, ok := true, false;
      if reading.ReadFailed? {
        RetainPending(x, persist);
      } else if RemoteMatches(reading.remote, x) {
        ok := CommitSuccess(x, false, persist);
      } else {
        var dropped := CommitFailure(x, true, false, persist);
        if dropped {
          Take(Look);
          settled := false;
        }
      }
    }

    /** A tunnel already claimed is left as it is when the router shows it. */
    method ConfirmOrSend(x: Intent, r: Replies) returns (ok: bool)
      requires Stands(x, After(mem))
      modifies this
      ensures Idle() && Ending(mem, ok) == EndingOfConfirm(old(mem), x, r)
    {
      ShowsExactly(r.confirm, x);
      if mem.pending == None && mem.status in {ClaimedRemote, Connected} {
        Take(Read(r.confirm));
        if r.confirm.Viewed? && RemoteMatches(r.confirm.remote, x) {
          return true;
        }
      }
      ok := BeginAndSend(x, r);
    }

    /** `reconcile_pending_client_tunnel_claim`. */
    method ReconcilePending(reading: Reading, persist: Persist) returns (ok: bool)
      requires Idle()
      modifies this
      ensures Idle()
      ensures old(mem).pending == None || old(mem).pending != old(mem).current ==>
                !ok && mem == old(mem) && disk == old(disk)
      ensures old(mem).pending.Some? && old(mem).pending == old(mem).current ==>
                var x := old(mem).pending.value;
                var target := Settled(old(mem), x, false, reading);
                && (ok <==> Shows(reading, x) && persist.Stored?)
                && mem == (if persist.Stored? then target else old(mem))
                && disk == (if persist.NotStored? then old(disk) else target)
    {
      if mem.pending == None || mem.pending != mem.current {
        return false;
      }
      var x := mem.pending.value;
      Take(StartReconcile);
      ok := Settle(x, false, reading, persist);
    }
  }
}
