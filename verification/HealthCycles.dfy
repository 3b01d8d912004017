/**
 The coalescing of health cycle requests: every caller raises a flag, queues for a
 mutex, and while it holds the mutex runs one cycle each time it can lower the flag.
 Any number of callers interleave one atomic action at a time, and a caller can be
 dropped wherever it waits.
 */
module HealthCycles {
  import opened Prelude

  datatype Ending = Open | Finished(at: nat) | Abandoned(at: nat)

  /** One execution of a full health cycle. */
  datatype Cycle = Cycle(startedAt: nat, ending: Ending)

  /** Where a call stands; `last` is the last cycle there was when it saw the flag down. */
  datatype Place =
    | Waiting
    | Testing
    | Running(cycle: nat)
    | Leaving(last: nat)
    | Returned(last: nat, at: nat)
    | Dropped

  datatype Call = Call(raisedAt: nat, place: Place)

  datatype State = State(
    pending: bool,
    holder: Option<nat>,
    calls: map<nat, Call>,
    cycles: seq<Cycle>,
    clock: nat)

  const INITIAL := State(false, None, map[], [], 0)

  datatype Action =
    | Raise(caller: nat)
    | Acquire(caller: nat)
    | Swap(caller: nat)
    | Finish(caller: nat)
    | Return(caller: nat)
    | Drop(caller: nat)

  predicate At(s: State, c: nat, place: Place) {
    c in s.calls && s.calls[c].place == place
  }

  predicate Enabled(s: State, a: Action) {
    match a
    case Raise(c) => c !in s.calls
    case Acquire(c) => At(s, c, Waiting) && s.holder == None
    case Swap(c) => At(s, c, Testing)
    case Finish(c) => c in s.calls && s.calls[c].place.Running?
    case Return(c) => c in s.calls && s.calls[c].place.Leaving?
    case Drop(c) => c in s.calls && (s.calls[c].place.Waiting? || s.calls[c].place.Running?)
  }

  function Move(s: State, c: nat, place: Place): map<nat, Call>
    requires c in s.calls
  {
    s.calls[c := s.calls[c].(place := place)]
  }

  /** One atomic action; an action that is not possible here changes nothing. */
  function Do(s: State, a: Action): State {
    if !Enabled(s, a) then s
    else
      var t := s.(clock := s.clock + 1);
      match a
      case Raise(c) =>
        t.(pending := true, calls := s.calls[c := Call(s.clock, Waiting)])
      case Acquire(c) =>
        t.(holder := Some(c), calls := Move(s, c, Testing))
      case Swap(c) =>
        if s.pending then
          t.(pending := false,
             calls := Move(s, c, Running(|s.cycles|)),
             cycles := s.cycles + [Cycle(s.clock, Open)])
        else
          t.(calls := Move(s, c, Leaving(if s.cycles == [] then 0 else |s.cycles| - 1)))
      case Finish(c) =>
        var k := s.calls[c].place.cycle;
        if k >= |s.cycles| then s
        else t.(calls := Move(s, c, Testing),
                cycles := s.cycles[k := s.cycles[k].(ending := Finished(s.clock))])
      case Return(c) =>
        t.(holder := None, calls := Move(s, c, Returned(s.calls[c].place.last, s.clock)))
      case Drop(c) =>
        if s.calls[c].place.Waiting? then t.(calls := Move(s, c, Dropped))
        else
          var k := s.calls[c].place.cycle;
          if k >= |s.cycles| then s
          else t.(holder := None,
                  calls := Move(s, c, Dropped),
                  cycles := s.cycles[k := s.cycles[k].(ending := Abandoned(s.clock))])
  }

  function Reached(run: seq<Action>): State {
    if run == [] then INITIAL else Do(Reached(run[..|run| - 1]), run[|run| - 1])
  }

  // ------------------------------------------------------------------ invariant

  predicate HoldsMutex(place: Place) {
    place.Testing? || place.Running? || place.Leaving?
  }

  /** Exactly the holder is past the mutex. */
  ghost predicate Exclusive(s: State) {
    forall c :: c in s.calls ==> (HoldsMutex(s.calls[c].place) <==> s.holder == Some(c))
  }

  /** The last cycle is open exactly while the holder runs it; all earlier ones are closed. */
  ghost predicate OneOpen(s: State) {
    && (s.holder.Some? ==> s.holder.value in s.calls)
    && (forall k :: 0 <= k < |s.cycles| && s.cycles[k].ending.Open? ==>
          k == |s.cycles| - 1 && s.holder.Some? && s.calls[s.holder.value].place == Running(k))
    && (forall c :: c in s.calls && s.calls[c].place.Running? ==>
          s.calls[c].place.cycle == |s.cycles| - 1 && s.cycles != []
          && s.cycles[|s.cycles| - 1].ending.Open?)
  }

  /** `end` is when a cycle closed. */
  function ClosedAt(c: Cycle): nat {
    if c.ending.Open? then c.startedAt else c.ending.at
  }

  ghost predicate Serial(s: State) { SerialCycles(s.cycles, s.clock) }

  ghost predicate SerialCycles(cycles: seq<Cycle>, clock: nat) {
    && (forall k :: 0 <= k < |cycles| ==> cycles[k].startedAt <= ClosedAt(cycles[k]) < clock)
    && (forall i, j :: 0 <= i < j < |cycles| ==>
          !cycles[i].ending.Open? && ClosedAt(cycles[i]) < cycles[j].startedAt)
  }

  /** Cycle `k` began after the call raised the flag. */
  predicate Covers(s: State, k: nat, call: Call) {
    k < |s.cycles| && call.raisedAt < s.cycles[k].startedAt
  }

  /** A call has a raised flag ahead of it, or a cycle has begun since it raised the flag. */
  predicate CallCovered(s: State, call: Call) {
    && call.raisedAt < s.clock
    && match call.place
       case Leaving(k) => Covers(s, k, call) && OverBefore(s.cycles[k], s.clock)
       case Returned(k, at) => Covers(s, k, call) && OverBefore(s.cycles[k], at)
       case _ => s.pending || (s.cycles != [] && Covers(s, |s.cycles| - 1, call))
  }

  /** The cycle is over, and it ended before time `t`. */
  predicate OverBefore(c: Cycle, t: nat) {
    !c.ending.Open? && c.ending.at < t
  }

  ghost predicate Covered(s: State) {
    forall c :: c in s.calls ==> CallCovered(s, s.calls[c])
  }

  ghost predicate Counted(s: State) {
    |s.cycles| + (if s.pending then 1 else 0) <= |s.calls|
  }

  ghost predicate Inv(s: State) {
    Exclusive(s) && OneOpen(s) && Serial(s) && Covered(s) && Counted(s)
  }

  lemma MoveKeepsCount(s: State, c: nat, place: Place)
    requires c in s.calls
    ensures |Move(s, c, place)| == |s.calls|
  {
    assert Move(s, c, place).Keys == s.calls.Keys;
  }

  lemma RaiseKeepsInv(s: State, c: nat)
    requires Inv(s) && c !in s.calls
    ensures Inv(Do(s, Raise(c)))
  {
    var t := Do(s, Raise(c));
    assert Counted(t) by {
      assert t.calls.Keys == s.calls.Keys + {c};
    }
    assert Exclusive(t);
    assert OneOpen(t);
    forall d | d in t.calls ensures CallCovered(t, t.calls[d]) {
      assert d != c ==> CallCovered(s, s.calls[d]);
    }
  }

  lemma StepKeepsExclusive(s: State, a: Action)
    requires Exclusive(s) && !a.Raise?
    ensures Exclusive(Do(s, a))
  {
  }

  lemma StepKeepsOneOpen(s: State, a: Action)
    requires Exclusive(s) && OneOpen(s) && !a.Raise?
    ensures OneOpen(Do(s, a))
  {
  }

  lemma StepKeepsCount(s: State, a: Action)
    requires Counted(s) && !a.Raise?
    ensures Counted(Do(s, a))
  {
    if Enabled(s, a) {
      MoveKeepsCount(s, a.caller, Do(s, a).calls[a.caller].place);
    }
  }

  lemma SerialLater(cycles: seq<Cycle>, clock: nat)
    requires SerialCycles(cycles, clock)
    ensures SerialCycles(cycles, clock + 1)
  {
  }

  lemma SerialOpened(cycles: seq<Cycle>, clock: nat)
    requires SerialCycles(cycles, clock) && forall k :: 0 <= k < |cycles| ==> !cycles[k].ending.Open?
    ensures SerialCycles(cycles + [Cycle(clock, Open)], clock + 1)
  {
  }

  lemma SerialClosed(cycles: seq<Cycle>, clock: nat, ending: Ending)
    requires SerialCycles(cycles, clock) && cycles != [] && !ending.Open? && ending.at == clock
    ensures var last := |cycles| - 1; SerialCycles(cycles[last := cycles[last].(ending := ending)], clock + 1)
  {
  }

  /** The holder that tests the flag finds every cycle closed. */
  lemma TestingMeansClosed(s: State, c: nat)
    requires Exclusive(s) && OneOpen(s) && At(s, c, Testing)
    ensures forall k :: 0 <= k < |s.cycles| ==> !s.cycles[k].ending.Open?
  {
  }

  lemma StepKeepsSerial(s: State, a: Action)
    requires Exclusive(s) && OneOpen(s) && Serial(s) && !a.Raise?
    ensures Serial(Do(s, a))
  {
    if Enabled(s, a) {
      SerialLater(s.cycles, s.clock);
      if a.Swap? {
        TestingMeansClosed(s, a.caller);
        SerialOpened(s.cycles, s.clock);
      } else if s.calls[a.caller].place.Running? {
        SerialClosed(s.cycles, s.clock, if a.Finish? then Finished(s.clock) else Abandoned(s.clock));
      }
    }
  }

  /** Cycles are only closed or added, and an added one begins now. */
  ghost predicate Grows(s: State, t: State) {
    && s.clock <= t.clock && |s.cycles| <= |t.cycles|
    && (forall k :: 0 <= k < |s.cycles| ==> t.cycles[k].startedAt == s.cycles[k].startedAt)
    && (forall k :: 0 <= k < |s.cycles| && !s.cycles[k].ending.Open? ==> t.cycles[k] == s.cycles[k])
    && (forall k :: |s.cycles| <= k < |t.cycles| ==> t.cycles[k].startedAt == s.clock)
  }

  lemma StepGrows(s: State, a: Action)
    requires OneOpen(s)
    ensures Grows(s, Do(s, a))
  {
  }

  /** What covers a call goes on covering it. */
  lemma CoverageLasts(s: State, t: State, call: Call)
    requires CallCovered(s, call) && Serial(s) && Grows(s, t)
    requires s.pending && !t.pending ==> |t.cycles| > |s.cycles|
    ensures CallCovered(t, call)
  {
  }

  /** A call that moves on is covered where it gets to. */
  lemma MovedIsCovered(s: State, a: Action)
    requires Inv(s) && !a.Raise? && Enabled(s, a)
    ensures CallCovered(Do(s, a), Do(s, a).calls[a.caller])
  {
    assert CallCovered(s, s.calls[a.caller]);
  }

  lemma OthersStay(s: State, a: Action, c: nat)
    requires !a.Raise? && Enabled(s, a) && c in Do(s, a).calls && c != a.caller
    ensures c in s.calls && Do(s, a).calls[c] == s.calls[c]
  {
  }

  lemma FlagOpensCycle(s: State, a: Action)
    ensures s.pending && !Do(s, a).pending ==> |Do(s, a).cycles| > |s.cycles|
  {
  }

  lemma StepKeepsCovered(s: State, a: Action)
    requires Inv(s) && !a.Raise? && Enabled(s, a)
    ensures Covered(Do(s, a))
  {
    var t := Do(s, a);
    StepGrows(s, a);
    FlagOpensCycle(s, a);
    MovedIsCovered(s, a);
    forall c | c in t.calls && c != a.caller ensures CallCovered(t, t.calls[c]) {
      OthersStay(s, a, c);
      CoverageLasts(s, t, s.calls[c]);
    }
  }

  lemma {:induction false} EveryRunKeepsInv(run: seq<Action>)
    ensures Inv(Reached(run))
  {
    if run != [] {
      var s, a := Reached(run[..|run| - 1]), run[|run| - 1];
      EveryRunKeepsInv(run[..|run| - 1]);
      if a.Raise? {
        if a.caller !in s.calls {
          RaiseKeepsInv(s, a.caller);
        }
      } else {
        StepKeepsExclusive(s, a);
        StepKeepsOneOpen(s, a);
        StepKeepsCount(s, a);
        StepKeepsSerial(s, a);
        if Enabled(s, a) {
          StepKeepsCovered(s, a);
        }
      }
    }
  }

  // ------------------------------------------------------------------- theorems

  /** Cycles never overlap, and there are never more of them than calls. */
  lemma CyclesAreSerialAndFew(run: seq<Action>)
    ensures var s := Reached(run);
            && |s.cycles| <= |s.calls|
            && forall i, j :: 0 <= i < j < |s.cycles| ==> OverBefore(s.cycles[i], s.cycles[j].startedAt)
  {
    EveryRunKeepsInv(run);
  }

  /** A cycle that covers the call was dropped with its runner. */
  ghost predicate LostCycle(s: State, c: nat)
    requires c in s.calls
  {
    exists k :: 0 <= k < |s.cycles| && Covers(s, k, s.calls[c]) && s.cycles[k].ending.Abandoned?
  }

  /** A cycle that covers the call ran to its end before time `t`. */
  ghost predicate ServedBefore(s: State, c: nat, t: nat)
    requires c in s.calls
  {
    exists k: nat :: Covers(s, k, s.calls[c]) && s.cycles[k].ending.Finished? && s.cycles[k].ending.at < t
  }

  /**
   When a call returns, some cycle began after that call raised the flag and was over
   before the return; if no cycle that covers the call was dropped, one of them ran to
   its end before the return.
   */
  lemma ReturnMeansCycle(run: seq<Action>, c: nat)
    requires c in Reached(run).calls && Reached(run).calls[c].place.Returned?
    ensures var s, call := Reached(run), Reached(run).calls[c];
            && (exists k: nat :: Covers(s, k, call) && OverBefore(s.cycles[k], call.place.at))
            && (!LostCycle(s, c) ==> ServedBefore(s, c, call.place.at))
  {
    EveryRunKeepsInv(run);
    var s := Reached(run);
    var call := s.calls[c];
    assert Covers(s, call.place.last, call) && OverBefore(s.cycles[call.place.last], call.place.at);
  }

  /** No caller is dropped while it runs a cycle. */
  predicate NeverDropsRunner(run: seq<Action>) {
    run == [] ||
    (&& NeverDropsRunner(run[..|run| - 1])
     && !DropsRunner(Reached(run[..|run| - 1]), run[|run| - 1]))
  }

  /** Only a caller dropped inside its cycle leaves one unfinished. */
  lemma {:induction false} NoneAbandoned(run: seq<Action>)
    requires NeverDropsRunner(run)
    ensures forall k :: 0 <= k < |Reached(run).cycles| ==> !Reached(run).cycles[k].ending.Abandoned?
  {
    if run != [] {
      NoneAbandoned(run[..|run| - 1]);
    }
  }

  // --------------------------------------------------------------- stranded calls

  /** A call that is not through yet has no raised flag ahead, and every cycle begun since its own was dropped. */
  ghost predicate Stranded(s: State, c: nat) {
    && c in s.calls && (s.calls[c].place.Waiting? || s.calls[c].place.Testing?)
    && !s.pending
    && AllLost(s, s.calls[c])
  }

  ghost predicate AllLost(s: State, call: Call) {
    forall k :: 0 <= k < |s.cycles| && Covers(s, k, call) ==> s.cycles[k].ending.Abandoned?
  }

  /** The action drops a caller inside its cycle. */
  predicate DropsRunner(s: State, a: Action) {
    a.Drop? && a.caller in s.calls && s.calls[a.caller].place.Running?
  }

  /**
   Which drop strands which call: dropping the runner of a cycle strands a waiting call
   if and only if the flag is down and every earlier cycle that covers the call was
   dropped too.
   */
  lemma DropStrandsExactly(s: State, c: nat, d: nat)
    requires Inv(s) && c in s.calls && s.calls[c].place.Running? && At(s, d, Waiting)
    ensures Stranded(Do(s, Drop(c)), d) <==>
            && !s.pending
            && forall k :: 0 <= k < |s.cycles| - 1 && Covers(s, k, s.calls[d]) ==> s.cycles[k].ending.Abandoned?
  {
    var t, last := Do(s, Drop(c)), |s.cycles| - 1;
    assert t.calls[d] == s.calls[d] && t.pending == s.pending;
    assert forall k :: 0 <= k < last ==> t.cycles[k] == s.cycles[k];
    assert t.cycles[last].ending.Abandoned?;
  }

  /** Nothing but the drop of a runner strands a call. */
  lemma OnlyDropsStrand(s: State, a: Action, c: nat)
    requires Inv(s) && !Stranded(s, c) && !DropsRunner(s, a)
    ensures !Stranded(Do(s, a), c)
  {
    if Enabled(s, a) && c in Do(s, a).calls && c in s.calls {
      var t := Do(s, a);
      StepGrows(s, a);
      assert CallCovered(s, s.calls[c]);
      match a
      case Raise(_) => assert t.pending;
      case Acquire(_) => assert t.cycles == s.cycles && t.pending == s.pending;
      case Swap(_) => assert s.pending ==> Covers(t, |s.cycles|, t.calls[c]) && t.cycles[|s.cycles|].ending.Open?;
      case Finish(_) => assert t.cycles[|s.cycles| - 1].ending.Finished? && t.pending == s.pending;
      case Return(_) => assert t.cycles == s.cycles && t.pending == s.pending;
      case Drop(_) => assert t.cycles == s.cycles && t.pending == s.pending;
    }
  }

  /** The runner dropped at `t` stranded the call, and it has been stranded ever since. */
  ghost predicate StrandedSince(run: seq<Action>, t: nat, c: nat) {
    && t < |run| && DropsRunner(Reached(run[..t]), run[t])
    && forall u :: t < u <= |run| ==> Stranded(Reached(run[..u]), c)
  }

  lemma {:induction false} StrandedSinceADrop(run: seq<Action>, c: nat) returns (t: nat)
    requires Stranded(Reached(run), c)
    ensures StrandedSince(run, t, c)
  {
    var front, a := run[..|run| - 1], run[|run| - 1];
    if Stranded(Reached(front), c) {
      t := StrandedSinceADrop(front, c);
    } else {
      t := |front|;
      EveryRunKeepsInv(front);
      if !DropsRunner(Reached(front), a) {
        OnlyDropsStrand(Reached(front), a, c);
        assert false;
      }
    }
    assert run[..t] == front[..t];
    forall u | t < u <= |run| ensures Stranded(Reached(run[..u]), c) {
      assert if u == |run| then run[..u] == run else run[..u] == front[..u];
    }
  }

  // ---------------------------------------------------------- returns of stranded calls

  /** Cycles begun after a call saw the flag down begin after its return. */
  ghost predicate Sealed(s: State) {
    forall c :: c in s.calls ==> CallSealed(s, s.calls[c])
  }

  predicate CallSealed(s: State, call: Call) {
    match call.place
    case Leaving(k) => k == |s.cycles| - 1
    case Returned(k, at) => at < s.clock && forall j :: k < j < |s.cycles| ==> at < s.cycles[j].startedAt
    case _ => true
  }

  lemma SealLasts(s: State, t: State, call: Call)
    requires CallSealed(s, call) && call.place.Returned? && Grows(s, t)
    ensures CallSealed(t, call)
  {
  }

  /** The mutex holder alone opens cycles and leaves. */
  lemma MovedIsSealed(s: State, a: Action, c: nat)
    requires Inv(s) && Sealed(s) && Enabled(s, a) && c in Do(s, a).calls
    requires c !in s.calls || !s.calls[c].place.Returned?
    ensures CallSealed(Do(s, a), Do(s, a).calls[c])
  {
    assert c in s.calls ==> CallSealed(s, s.calls[c]);
  }

  lemma StepKeepsSealed(s: State, a: Action)
    requires Inv(s) && Sealed(s) && Enabled(s, a)
    ensures Sealed(Do(s, a))
  {
    var t := Do(s, a);
    StepGrows(s, a);
    forall c | c in t.calls ensures CallSealed(t, t.calls[c]) {
      if c in s.calls && s.calls[c].place.Returned? {
        ReturnedStays(s, a, c);
        SealLasts(s, t, s.calls[c]);
      } else {
        MovedIsSealed(s, a, c);
      }
    }
  }

  lemma ReturnedStays(s: State, a: Action, c: nat)
    requires c in s.calls && s.calls[c].place.Returned?
    ensures c in Do(s, a).calls && Do(s, a).calls[c] == s.calls[c]
  {
  }

  lemma {:induction false} EveryRunIsSealed(run: seq<Action>)
    ensures Sealed(Reached(run))
  {
    if run != [] {
      EveryRunIsSealed(run[..|run| - 1]);
      EveryRunKeepsInv(run[..|run| - 1]);
      if Enabled(Reached(run[..|run| - 1]), run[|run| - 1]) {
        StepKeepsSealed(Reached(run[..|run| - 1]), run[|run| - 1]);
      }
    }
  }

  /** The call lowers the flag while stranded, and so finds nothing to do. */
  ghost predicate LeavesStranded(s: State, a: Action, c: nat) {
    a == Swap(c) && At(s, c, Testing) && Stranded(s, c)
  }

  ghost predicate LeftStranded(run: seq<Action>, c: nat) {
    run != [] &&
    var front := run[..|run| - 1];
    LeftStranded(front, c) || LeavesStranded(Reached(front), run[|run| - 1], c)
  }

  predicate Through(s: State, c: nat) {
    c in s.calls && (s.calls[c].place.Leaving? || s.calls[c].place.Returned?)
  }

  /** Some cycle that the call could see when it saw the flag down covers it and ran to its end. */
  ghost predicate Served(s: State, c: nat)
    requires Through(s, c)
  {
    exists k: nat :: k <= s.calls[c].place.last && Covers(s, k, s.calls[c]) && s.cycles[k].ending.Finished?
  }

  /** A call that lets go of the flag was served exactly when it was not stranded. */
  lemma LeavingServedExactly(s: State, c: nat)
    requires Inv(s) && At(s, c, Testing) && !s.pending
    ensures Served(Do(s, Swap(c)), c) <==> !Stranded(s, c)
  {
    var t := Do(s, Swap(c));
    assert t.cycles == s.cycles;
    assert forall k :: 0 <= k < |s.cycles| ==> !s.cycles[k].ending.Open?;
    if !Stranded(s, c) {
      var k :| 0 <= k < |s.cycles| && Covers(s, k, s.calls[c]) && !s.cycles[k].ending.Abandoned?;
      assert Covers(t, k, t.calls[c]) && k <= t.calls[c].place.last;
    }
  }

  /** What a call could see when it left does not change any more. */
  lemma ServedLasts(s: State, t: State, c: nat)
    requires Inv(s) && Through(s, c) && Grows(s, t) && Through(t, c)
    requires t.calls[c].raisedAt == s.calls[c].raisedAt && t.calls[c].place.last == s.calls[c].place.last
    ensures Served(t, c) <==> Served(s, c)
  {
    var last := s.calls[c].place.last;
    assert CallCovered(s, s.calls[c]);
    assert forall k :: 0 <= k <= last ==> !s.cycles[k].ending.Open?;
    assert forall k :: 0 <= k <= last ==> t.cycles[k] == s.cycles[k];
  }

  lemma ThroughStays(s: State, a: Action, c: nat)
    requires Through(s, c)
    ensures Through(Do(s, a), c)
    ensures var before, after := s.calls[c], Do(s, a).calls[c];
            after.raisedAt == before.raisedAt && after.place.last == before.place.last
  {
  }

  lemma BecomesThrough(s: State, a: Action, c: nat)
    requires !Through(s, c) && Through(Do(s, a), c)
    ensures a == Swap(c) && At(s, c, Testing) && !s.pending
  {
  }

  lemma ThroughStep(s: State, a: Action, c: nat)
    requires Inv(s)
    ensures Through(s, c) ==> Through(Do(s, a), c) && (Served(Do(s, a), c) <==> Served(s, c))
    ensures !Through(s, c) && Through(Do(s, a), c) ==>
              a == Swap(c) && At(s, c, Testing) && (Served(Do(s, a), c) <==> !Stranded(s, c))
    ensures LeavesStranded(s, a, c) ==> !Through(s, c) && Through(Do(s, a), c)
  {
    if Through(s, c) {
      ThroughStays(s, a, c);
      StepGrows(s, a);
      ServedLasts(s, Do(s, a), c);
    } else if Through(Do(s, a), c) {
      BecomesThrough(s, a, c);
      LeavingServedExactly(s, c);
    }
  }

  lemma {:induction false} ThroughServedExactly(run: seq<Action>, c: nat)
    ensures LeftStranded(run, c) ==> Through(Reached(run), c)
    ensures Through(Reached(run), c) ==> (Served(Reached(run), c) <==> !LeftStranded(run, c))
  {
    if run != [] {
      var front := run[..|run| - 1];
      ThroughServedExactly(front, c);
      EveryRunKeepsInv(front);
      ThroughStep(Reached(front), run[|run| - 1], c);
    }
  }

  /**
   The promise, exactly: a call that returned had a cycle begun after it raised the flag
   and finished before it returned, if and only if it was not stranded when it last
   lowered the flag.
   */
  lemma {:induction false} ReturnServedExactly(run: seq<Action>, c: nat)
    requires c in Reached(run).calls && Reached(run).calls[c].place.Returned?
    ensures ServedBefore(Reached(run), c, Reached(run).calls[c].place.at) <==> !LeftStranded(run, c)
  {
    var s := Reached(run);
    EveryRunKeepsInv(run);
    EveryRunIsSealed(run);
    ThroughServedExactly(run, c);
    ServedIsBefore(s, c);
  }

  lemma ServedIsBefore(s: State, c: nat)
    requires Inv(s) && Sealed(s) && c in s.calls && s.calls[c].place.Returned?
    ensures ServedBefore(s, c, s.calls[c].place.at) <==> Served(s, c)
  {
    var call := s.calls[c];
    assert CallCovered(s, call) && CallSealed(s, call);
    if Served(s, c) {
      var k: nat :| k <= call.place.last && Covers(s, k, call) && s.cycles[k].ending.Finished?;
      assert s.cycles[k].ending.at < call.place.at;
    }
    if ServedBefore(s, c, call.place.at) {
      var k: nat :| Covers(s, k, call) && s.cycles[k].ending.Finished? && s.cycles[k].ending.at < call.place.at;
      assert k <= call.place.last;
    }
  }

  /** No drop of a runner strands the call, at any point of the run. */
  ghost predicate NeverStranded(run: seq<Action>, c: nat) {
    forall t :: 0 <= t < |run| && DropsRunner(Reached(run[..t]), run[t]) ==> !Stranded(Reached(run[..t + 1]), c)
  }

  /** A call that no drop strands returns after a finished cycle, whatever was dropped besides. */
  lemma {:induction false} UnstrandedReturnIsServed(run: seq<Action>, c: nat)
    requires c in Reached(run).calls && Reached(run).calls[c].place.Returned? && NeverStranded(run, c)
    ensures ServedBefore(Reached(run), c, Reached(run).calls[c].place.at)
  {
    ReturnServedExactly(run, c);
    if LeftStranded(run, c) {
      var t, u := LeftStrandedByADrop(run, c);
    }
  }

  /** A call that left stranded was stranded by the drop of a runner, and from then on up to its leaving. */
  lemma {:induction false} LeftStrandedByADrop(run: seq<Action>, c: nat) returns (t: nat, u: nat)
    requires LeftStranded(run, c)
    ensures t < u < |run| && DropsRunner(Reached(run[..t]), run[t]) && LeavesStranded(Reached(run[..u]), run[u], c)
    ensures Stranded(Reached(run[..t + 1]), c)
    ensures forall v :: t < v <= u ==> Stranded(Reached(run[..v]), c)
  {
    u := LeftWhen(run, c);
    var front := run[..u];
    t := StrandedSinceADrop(front, c);
    assert forall v :: 0 <= v <= u ==> front[..v] == run[..v];
    assert front[t] == run[t];
  }

  lemma {:induction false} LeftWhen(run: seq<Action>, c: nat) returns (u: nat)
    requires LeftStranded(run, c)
    ensures u < |run| && LeavesStranded(Reached(run[..u]), run[u], c)
  {
    var front := run[..|run| - 1];
    if LeavesStranded(Reached(front), run[|run| - 1], c) {
      u := |front|;
    } else {
      u := LeftWhen(front, c);
      assert front[..u] == run[..u] && front[u] == run[u];
    }
  }

  /** A stranded call that gets the mutex before the flag goes up again returns without a finished cycle. */
  lemma StrandedReturnsUnserved(s: State, d: nat)
    requires Inv(s) && Stranded(s, d) && At(s, d, Waiting) && s.holder == None
    ensures var t := Do(Do(Do(s, Acquire(d)), Swap(d)), Return(d));
            && d in t.calls && t.calls[d].place.Returned? && AllLost(t, t.calls[d])
  {
    var s1 := Do(s, Acquire(d));
    var s2 := Do(s1, Swap(d));
    var t := Do(s2, Return(d));
    assert At(s1, d, Testing) && s2.calls[d].place.Leaving?;
    assert t.cycles == s.cycles && t.calls[d].raisedAt == s.calls[d].raisedAt;
    assert forall k :: 0 <= k < |s.cycles| ==> (Covers(t, k, t.calls[d]) <==> Covers(s, k, s.calls[d]));
  }

  /** Any two callers can come to that: the first is dropped inside its cycle, and the second waits. */
  lemma {:induction false} AnyTwoCallersCanStrand(c: nat, d: nat)
    requires c != d
    ensures var s := Reached([Raise(c), Raise(d), Acquire(c), Swap(c), Drop(c)]);
            Stranded(s, d) && At(s, d, Waiting) && s.holder == None
  {
    var r3 := [Raise(c), Raise(d), Acquire(c)];
    FirstCallerHolds(c, d);
    ReachedSnoc(r3, Swap(c));
    ReachedSnoc(r3 + [Swap(c)], Drop(c));
    assert r3 + [Swap(c)] + [Drop(c)] == [Raise(c), Raise(d), Acquire(c), Swap(c), Drop(c)];
    var s4 := Do(Reached(r3), Swap(c));
    assert s4.cycles == [Cycle(3, Open)] && At(s4, c, Running(0)) && s4.calls[d] == Call(1, Waiting) && !s4.pending;
    var s5 := Do(s4, Drop(c));
    assert |s5.cycles| == 1 && s5.cycles[0].ending.Abandoned?;
  }

  lemma {:induction false} FirstCallerHolds(c: nat, d: nat)
    requires c != d
    ensures Reached([Raise(c), Raise(d), Acquire(c)])
         == State(true, Some(c), map[c := Call(0, Testing), d := Call(1, Waiting)], [], 3)
  {
    ReachedSnoc([], Raise(c));
    ReachedSnoc([Raise(c)], Raise(d));
    ReachedSnoc([Raise(c), Raise(d)], Acquire(c));
    assert [] + [Raise(c)] == [Raise(c)] && [Raise(c)] + [Raise(d)] == [Raise(c), Raise(d)];
    assert [Raise(c), Raise(d)] + [Acquire(c)] == [Raise(c), Raise(d), Acquire(c)];
  }

  lemma {:induction false} ReachedSnoc(run: seq<Action>, a: Action)
    ensures Reached(run + [a]) == Do(Reached(run), a)
  {
    assert (run + [a])[..|run|] == run;
  }
}
