/**
 * Importing the account of a completed device login.
 *
 * A login is bound to the principal that started it. Starting, polling, cancelling and importing take one guard;
 * some requests sweep expired bindings without it. An importer reads the time before it waits for the guard, so a
 * waiting importer is just a request that may be granted the guard at any later point.
 */
module DeviceLogin {
  import opened Prelude

  /** Provider type and device code. */
  type Key = (string, string)

  /** `epoch` numbers the starts of logins; it is history, and no step of the program reads it. */
  datatype Binding = Binding(principal: string, expires: int, epoch: nat)

  type Bindings = map<Key, Binding>

  // -------------------------------------------------------------------- the bindings

  function Live(b: Bindings, now: int): Bindings { map k | k in b && b[k].expires > now :: b[k] }

  predicate Owns(b: Bindings, key: Key, principal: string, now: int) {
    key in Live(b, now) && b[key].principal == principal
  }

  function Removed(b: Bindings, key: Key, principal: string, now: int): Bindings {
    if Owns(b, key, principal, now) then Live(b, now) - {key} else Live(b, now)
  }

  /** `after` is what `b` holds that is unexpired at `now`, unchanged, but for the keys in `gone`. */
  ghost predicate Keeps(b: Bindings, after: Bindings, now: int, gone: set<Key>) {
    && (forall k :: k in after <==> k in b && b[k].expires > now && k !in gone)
    && (forall k :: k in after ==> after[k] == b[k])
  }

  /** The login is there for its principal: bound to it, and unexpired. */
  predicate BoundTo(b: Bindings, key: Key, principal: string, now: int) {
    key in b && b[key].expires > now && b[key].principal == principal
  }

  /** What a sweep, an owner check and a removal do, key by key. */
  lemma BindingsExactly(b: Bindings, key: Key, principal: string, now: int)
    ensures Keeps(b, Live(b, now), now, {})
    ensures Owns(b, key, principal, now) <==> BoundTo(b, key, principal, now)
    ensures Keeps(b, Removed(b, key, principal, now), now, if BoundTo(b, key, principal, now) then {key} else {})
  {
  }

  // ---------------------------------------------------------------------- the importer

  /** What an importer holds when it asks for the guard. */
  datatype Request = Request(key: Key, principal: string, accountType: string, completedAt: int)

  datatype Pc = Locked | Passed(binding: Binding) | Written(binding: Binding)

  datatype Importer = Importer(request: Request, pc: Pc)

  datatype Import = Import(request: Request, binding: Binding)

  /**
   * The last two are history: the accounts that reached the disk, and the logins whose importer went away after that
   * with the binding still in place.
   */
  datatype State = State(
    bindings: Bindings, guard: Option<Importer>, next: nat, imports: seq<Import>, lost: seq<nat>)

  /** How an account write ends; an error that also hides from the reading after it leaves the account unseen. */
  datatype Outcome = Stored | NotStored | StoredUnseen

  datatype Event =
    | Bind(key: Key, principal: string, expires: int, now: int)
    | Cancel(key: Key, principal: string, now: int)
    | Ask(now: int)                  // a poller's owner check, under the guard
    | Sweep(now: int)                // an owner check or a poll that does not take the guard
    | Prune(keys: set<Key>)          // bindings whose flow is gone
    | Lock(request: Request)
    | Check
    | Write(outcome: Outcome)
    | Remove
    | Drop(stored: bool)             // the importer's request is abandoned; a write under way may still reach the disk
    | Restart(stored: bool)

  predicate Legal(s: State, e: Event) {
    match e
    case Bind(_, _, _, _) => s.guard == None
    case Cancel(_, _, _) => s.guard == None
    case Ask(_) => s.guard == None
    case Lock(r) => s.guard == None && r.accountType == r.key.0
    case Check => s.guard.Some? && s.guard.value.pc.Locked?
    case Write(_) => s.guard.Some? && s.guard.value.pc.Passed?
    case Remove => s.guard.Some? && s.guard.value.pc.Written?
    case Drop(_) => s.guard.Some?
    case Sweep(_) => true
    case Prune(_) => true
    case Restart(_) => true
  }

  /** The importer is gone; a write it had under way is on the disk if `stored`. */
  function Abandoned(s: State, stored: bool): State {
    if s.guard == None then s
    else
      var Importer(r, pc) := s.guard.value;
      if pc.Written? then s.(guard := None, lost := s.lost + [pc.binding.epoch])
      else if pc.Passed? && stored
      then s.(guard := None, imports := s.imports + [Import(r, pc.binding)], lost := s.lost + [pc.binding.epoch])
      else s.(guard := None)
  }

  function Do(s: State, e: Event): State
    requires Legal(s, e)
  {
    match e
    case Bind(key, principal, expires, now) =>
      s.(bindings := Live(s.bindings, now)[key := Binding(principal, expires, s.next)], next := s.next + 1)
    case Cancel(key, principal, now) => s.(bindings := Removed(s.bindings, key, principal, now))
    case Ask(now) => s.(bindings := Live(s.bindings, now))
    case Sweep(now) => s.(bindings := Live(s.bindings, now))
    case Prune(keys) => s.(bindings := s.bindings - keys)
    case Lock(r) => s.(guard := Some(Importer(r, Locked)))
    case Check =>
      var r := s.guard.value.request;
      var live := Live(s.bindings, r.completedAt);
      if Owns(s.bindings, r.key, r.principal, r.completedAt)
      then s.(bindings := live, guard := Some(Importer(r, Passed(s.bindings[r.key]))))
      else s.(bindings := live, guard := None)
    case Write(outcome) =>
      var Importer(r, Passed(binding)) := s.guard.value;
      if outcome.Stored?
      then s.(guard := Some(Importer(r, Written(binding))), imports := s.imports + [Import(r, binding)])
      else Abandoned(s, outcome.StoredUnseen?)
    case Remove =>
      var r := s.guard.value.request;
      s.(bindings := Removed(s.bindings, r.key, r.principal, r.completedAt), guard := None)
    case Drop(stored) => Abandoned(s, stored)
    case Restart(stored) => Abandoned(s, stored).(bindings := map[])
  }

  function Next(s: State, e: Event): State { if Legal(s, e) then Do(s, e) else s }

  function Reached(start: State, run: seq<Event>): State {
    if run == [] then start else Next(Reached(start, run[..|run| - 1]), run[|run| - 1])
  }

  const EMPTY: State := State(map[], None, 0, [], [])

  // -------------------------------------------------------------------- the invariant

  /** How often the account of one login was written. */
  function Imported(imports: seq<Import>, epoch: nat): nat {
    if imports == [] then 0
    else Imported(imports[..|imports| - 1], epoch) + if imports[|imports| - 1].binding.epoch == epoch then 1 else 0
  }

  function Lost(lost: seq<nat>, epoch: nat): nat {
    if lost == [] then 0
    else Lost(lost[..|lost| - 1], epoch) + if lost[|lost| - 1] == epoch then 1 else 0
  }

  ghost predicate Bound(b: Bindings, epoch: nat) { exists k :: k in b && b[k].epoch == epoch }

  predicate Passing(s: State, epoch: nat) {
    s.guard.Some? && s.guard.value.pc.Passed? && s.guard.value.pc.binding.epoch == epoch
  }

  predicate Writing(s: State, epoch: nat) {
    s.guard.Some? && s.guard.value.pc.Written? && s.guard.value.pc.binding.epoch == epoch
  }

  /** Each login has its own number. */
  ghost predicate Numbered(s: State) {
    && (forall k :: k in s.bindings ==> s.bindings[k].epoch < s.next)
    && (forall j, k :: j in s.bindings && k in s.bindings && s.bindings[j].epoch == s.bindings[k].epoch ==> j == k)
  }

  /** Past its check, an importer's key holds the binding it checked or none, and no other key holds that binding. */
  ghost predicate Steady(s: State) {
    s.guard.Some? ==>
      var Importer(r, pc) := s.guard.value;
      && r.accountType == r.key.0
      && (!pc.Locked? ==>
            && pc.binding.epoch < s.next && pc.binding.principal == r.principal && pc.binding.expires > r.completedAt
            && (r.key in s.bindings ==> s.bindings[r.key] == pc.binding)
            && (forall k :: k in s.bindings && s.bindings[k].epoch == pc.binding.epoch ==> k == r.key))
  }

  /** Imports and drops of one login, by where it stands. */
  ghost predicate Balanced(s: State, epoch: nat) {
    var n, d := Imported(s.imports, epoch), Lost(s.lost, epoch);
    && n <= d + 1
    && (epoch >= s.next ==> n == d == 0)
    && (Writing(s, epoch) ==> n == d + 1)
    && (Passing(s, epoch) ==> n == d)
    && (Bound(s.bindings, epoch) && !Writing(s, epoch) ==> n == d)
  }

  lemma ImportedAppend(imports: seq<Import>, i: Import, epoch: nat)
    ensures Imported(imports + [i], epoch) == Imported(imports, epoch) + if i.binding.epoch == epoch then 1 else 0
  {
    assert (imports + [i])[..|imports|] == imports;
  }

  lemma LostAppend(lost: seq<nat>, d: nat, epoch: nat)
    ensures Lost(lost + [d], epoch) == Lost(lost, epoch) + if d == epoch then 1 else 0
  {
    assert (lost + [d])[..|lost|] == lost;
  }

  lemma FewerAreNumbered(s: State, t: State)
    requires Numbered(s) && s.next == t.next
    requires forall k :: k in t.bindings ==> k in s.bindings && t.bindings[k] == s.bindings[k]
    ensures Numbered(t)
  {
  }

  lemma BindKeepsNumbered(s: State, e: Event)
    requires Numbered(s) && e.Bind? && Legal(s, e)
    ensures Numbered(Do(s, e))
  {
    var t := Do(s, e);
    assert forall k :: k in t.bindings && k != e.key ==> k in s.bindings && t.bindings[k] == s.bindings[k];
  }

  lemma StepKeepsNumbered(s: State, e: Event)
    requires Numbered(s)
    ensures Numbered(Next(s, e))
  {
    if e.Bind? && Legal(s, e) {
      BindKeepsNumbered(s, e);
    } else {
      FewerAreNumbered(s, Next(s, e));
    }
  }

  lemma StepKeepsSteady(s: State, e: Event)
    requires Numbered(s) && Steady(s)
    ensures Steady(Next(s, e))
  {
  }

  lemma StepKeepsShape(s: State, e: Event)
    requires Numbered(s) && Steady(s)
    ensures Numbered(Next(s, e)) && Steady(Next(s, e))
  {
    StepKeepsNumbered(s, e);
    StepKeepsSteady(s, e);
  }

  lemma StoredKeepsBalance(s: State, epoch: nat)
    requires Steady(s) && Balanced(s, epoch) && Legal(s, Write(Stored))
    ensures Balanced(Do(s, Write(Stored)), epoch)
  {
    ImportedAppend(s.imports, Import(s.guard.value.request, s.guard.value.pc.binding), epoch);
  }

  lemma AbandonedKeepsBalance(s: State, stored: bool, epoch: nat)
    requires Steady(s) && Balanced(s, epoch)
    ensures Balanced(Abandoned(s, stored), epoch)
  {
    if s.guard.Some? && !s.guard.value.pc.Locked? {
      ImportedAppend(s.imports, Import(s.guard.value.request, s.guard.value.pc.binding), epoch);
      LostAppend(s.lost, s.guard.value.pc.binding.epoch, epoch);
    }
  }

  lemma RemoveKeepsBalance(s: State, epoch: nat)
    requires Steady(s) && Balanced(s, epoch) && Legal(s, Remove)
    ensures Balanced(Do(s, Remove), epoch)
    ensures Writing(s, epoch) ==> !Bound(Do(s, Remove).bindings, epoch)
  {
    var after := Do(s, Remove);
    var r := s.guard.value.request;
    if Writing(s, epoch) {
      assert r.key !in after.bindings;
      assert forall k :: k in after.bindings ==> k in s.bindings && after.bindings[k] == s.bindings[k] && k != r.key;
    } else {
      FewerBindings(s.bindings, after.bindings, epoch);
    }
  }

  lemma CheckKeepsBalance(s: State, epoch: nat)
    requires Numbered(s) && Balanced(s, epoch) && Legal(s, Check)
    ensures Balanced(Do(s, Check), epoch)
  {
    FewerBindings(s.bindings, Do(s, Check).bindings, epoch);
    var key := s.guard.value.request.key;
    assert key in s.bindings && s.bindings[key].epoch == epoch ==> Bound(s.bindings, epoch);
  }

  lemma FewerBindings(before: Bindings, after: Bindings, epoch: nat)
    requires forall k :: k in after ==> k in before && after[k] == before[k]
    ensures Bound(after, epoch) ==> Bound(before, epoch)
  {
  }

  lemma BindKeepsBalance(s: State, e: Event, epoch: nat)
    requires Numbered(s) && Balanced(s, epoch) && e.Bind? && Legal(s, e)
    ensures Balanced(Do(s, e), epoch)
  {
    var after := Do(s, e).bindings;
    if epoch != s.next && Bound(after, epoch) {
      var k :| k in after && after[k].epoch == epoch;
      assert k in s.bindings && s.bindings[k].epoch == epoch;
    }
  }

  lemma {:induction false} StepKeepsBalance(s: State, e: Event, epoch: nat)
    requires Numbered(s) && Steady(s) && Balanced(s, epoch)
    ensures Balanced(Next(s, e), epoch)
  {
    if Legal(s, e) {
      match e
      case Bind(_, _, _, _) => BindKeepsBalance(s, e, epoch);
      case Write(outcome) =>
        if outcome.Stored? {
          StoredKeepsBalance(s, epoch);
        } else {
          AbandonedKeepsBalance(s, outcome.StoredUnseen?, epoch);
        }
      case Drop(stored) => AbandonedKeepsBalance(s, stored, epoch);
      case Remove => RemoveKeepsBalance(s, epoch);
      case Check => CheckKeepsBalance(s, epoch);
      case Cancel(_, _, _) => FewerBindings(s.bindings, Do(s, e).bindings, epoch);
      case Ask(_) => FewerBindings(s.bindings, Do(s, e).bindings, epoch);
      case Sweep(_) => FewerBindings(s.bindings, Do(s, e).bindings, epoch);
      case Prune(_) => FewerBindings(s.bindings, Do(s, e).bindings, epoch);
      case Lock(_) =>
      case Restart(stored) => AbandonedKeepsBalance(s, stored, epoch);
    }
  }

  lemma {:induction false} EveryRunKeepsShape(run: seq<Event>)
    ensures Numbered(Reached(EMPTY, run)) && Steady(Reached(EMPTY, run))
  {
    if run != [] {
      EveryRunKeepsShape(run[..|run| - 1]);
      StepKeepsShape(Reached(EMPTY, run[..|run| - 1]), run[|run| - 1]);
    }
  }

  lemma {:induction false} EveryRunKeepsBalance(run: seq<Event>, epoch: nat)
    ensures Balanced(Reached(EMPTY, run), epoch)
  {
    if run != [] {
      EveryRunKeepsBalance(run[..|run| - 1], epoch);
      EveryRunKeepsShape(run[..|run| - 1]);
      StepKeepsBalance(Reached(EMPTY, run[..|run| - 1]), run[|run| - 1], epoch);
    }
  }

  // ------------------------------------------------------------------ the main results

  /**
   * Over every run the account of a login reaches the disk at most once more than its importers went away after that
   * with the binding still in place.
   */
  lemma {:induction false} AtMostOneImport(run: seq<Event>, epoch: nat)
    ensures var s := Reached(EMPTY, run); Imported(s.imports, epoch) <= 1 + Lost(s.lost, epoch)
  {
    EveryRunKeepsBalance(run, epoch);
  }

  /** An import is for the login's own principal and provider type, by a request made before the login expired. */
  predicate Rightful(i: Import) {
    && i.binding.principal == i.request.principal
    && i.request.accountType == i.request.key.0
    && i.request.completedAt < i.binding.expires
  }

  lemma {:induction false} EveryImportIsRightful(run: seq<Event>)
    ensures forall i :: i in Reached(EMPTY, run).imports ==> Rightful(i)
  {
    if run != [] {
      EveryImportIsRightful(run[..|run| - 1]);
      EveryRunKeepsShape(run[..|run| - 1]);
    }
  }

  /** The login is not bound, and no importer is past its check for it. */
  ghost predicate Gone(s: State, epoch: nat) {
    epoch < s.next && !Bound(s.bindings, epoch) && !Passing(s, epoch)
  }

  lemma {:induction false} GoneStaysGone(s: State, e: Event, epoch: nat)
    requires Gone(s, epoch)
    ensures Gone(Next(s, e), epoch) && Imported(Next(s, e).imports, epoch) == Imported(s.imports, epoch)
  {
    if Legal(s, e) {
      match e
      case Bind(key, principal, expires, now) =>
        var after := Do(s, e).bindings;
        forall k | k in after ensures after[k].epoch != epoch {
          assert k != key ==> k in s.bindings && s.bindings[k] == after[k];
        }
      case Write(_) =>
        ImportedAppend(s.imports, Import(s.guard.value.request, s.guard.value.pc.binding), epoch);
      case Check => assert forall k :: k in s.bindings ==> s.bindings[k].epoch != epoch;
      case Drop(stored) => GoneWhenAbandoned(s, stored, epoch);
      case Remove => FewerBindings(s.bindings, Do(s, e).bindings, epoch);
      case Cancel(_, _, _) => FewerBindings(s.bindings, Do(s, e).bindings, epoch);
      case Ask(_) => FewerBindings(s.bindings, Do(s, e).bindings, epoch);
      case Sweep(_) => FewerBindings(s.bindings, Do(s, e).bindings, epoch);
      case Prune(_) => FewerBindings(s.bindings, Do(s, e).bindings, epoch);
      case Lock(_) =>
      case Restart(stored) => GoneWhenAbandoned(s, stored, epoch);
    }
  }

  lemma GoneWhenAbandoned(s: State, stored: bool, epoch: nat)
    requires Gone(s, epoch)
    ensures Gone(Abandoned(s, stored), epoch)
    ensures Imported(Abandoned(s, stored).imports, epoch) == Imported(s.imports, epoch)
  {
    if s.guard.Some? && !s.guard.value.pc.Locked? {
      ImportedAppend(s.imports, Import(s.guard.value.request, s.guard.value.pc.binding), epoch);
    }
  }

  lemma {:induction false} GoneIsNeverImported(s: State, run: seq<Event>, epoch: nat)
    requires Gone(s, epoch)
    ensures Gone(Reached(s, run), epoch) && Imported(Reached(s, run).imports, epoch) == Imported(s.imports, epoch)
  {
    if run != [] {
      GoneIsNeverImported(s, run[..|run| - 1], epoch);
      GoneStaysGone(Reached(s, run[..|run| - 1]), run[|run| - 1], epoch);
    }
  }

  /** Any step under the guard that takes the binding away, by cancelling or by seeing it expired. */
  predicate Guarded(e: Event) { e.Cancel? || e.Ask? || e.Bind? }

  /** Once a cancellation or a guarded check has removed a login, it is never imported again, in any run from there. */
  lemma {:induction false} NeverAfterCancelOrExpiry(before: seq<Event>, e: Event, later: seq<Event>, epoch: nat)
    requires var s := Reached(EMPTY, before);
             Guarded(e) && Legal(s, e) && Bound(s.bindings, epoch) && !Bound(Next(s, e).bindings, epoch)
    ensures var s := Next(Reached(EMPTY, before), e);
            Imported(Reached(s, later).imports, epoch) == Imported(s.imports, epoch)
  {
    EveryRunKeepsShape(before);
    GoneIsNeverImported(Next(Reached(EMPTY, before), e), later, epoch);
  }

  /** A completed import leaves its login gone. */
  lemma {:induction false} CompletedImportEndsTheLogin(run: seq<Event>, epoch: nat)
    requires Writing(Reached(EMPTY, run), epoch)
    ensures Gone(Next(Reached(EMPTY, run), Remove), epoch)
  {
    EveryRunKeepsShape(run);
    EveryRunKeepsBalance(run, epoch);
    RemoveKeepsBalance(Reached(EMPTY, run), epoch);
  }

  /**
   * The event leaves the login alone: it is no cancellation or completed import of it in its principal's name, starts
   * no other login under its key, prunes it not, reads no time past its expiry, and does not restart the process.
   */
  predicate Harmless(s: State, e: Event, key: Key, binding: Binding) {
    match e
    case Bind(other, _, _, now) => other != key && now < binding.expires
    case Cancel(other, principal, now) => (other != key || principal != binding.principal) && now < binding.expires
    case Ask(now) => now < binding.expires
    case Sweep(now) => now < binding.expires
    case Prune(keys) => key !in keys
    case Lock(_) => true
    case Check => s.guard.Some? ==> s.guard.value.request.completedAt < binding.expires
    case Write(_) => true
    case Remove =>
      s.guard.Some? ==>
        var r := s.guard.value.request;
        (r.key != key || r.principal != binding.principal) && r.completedAt < binding.expires
    case Drop(_) => true
    case Restart(_) => false
  }

  lemma HarmlessKeeps(s: State, e: Event, key: Key)
    requires key in s.bindings && Harmless(s, e, key, s.bindings[key])
    ensures key in Next(s, e).bindings && Next(s, e).bindings[key] == s.bindings[key]
  {
  }

  /** Every event of the run is harmless where it comes. */
  ghost predicate HarmlessRun(s: State, run: seq<Event>, key: Key, binding: Binding) {
    run == [] ||
    (&& HarmlessRun(s, run[..|run| - 1], key, binding)
     && Harmless(Reached(s, run[..|run| - 1]), run[|run| - 1], key, binding))
  }

  /**
   * Nobody else takes a login away. Through any run of starts, checks, sweeps, imports and cancellations by others,
   * an unexpired login stays bound as it was, and can still be imported.
   */
  lemma {:induction false} OthersCannotTakeAway(s: State, run: seq<Event>, key: Key)
    requires key in s.bindings && HarmlessRun(s, run, key, s.bindings[key])
    ensures var after := Reached(s, run);
            && key in after.bindings && after.bindings[key] == s.bindings[key]
            && CanBeImported(after, s.bindings[key].epoch)
  {
    if run != [] {
      OthersCannotTakeAway(s, run[..|run| - 1], key);
      HarmlessKeeps(Reached(s, run[..|run| - 1]), run[|run| - 1], key);
    }
    BoundCanBeImported(Reached(s, run), key);
  }

  /** And an importer takes away no unexpired login but its own, and that only after the account reached the disk. */
  lemma {:induction false} ImporterTakesOnlyTheImported(run: seq<Event>, key: Key)
    requires var s := Reached(EMPTY, run); key in s.bindings && key !in Next(s, Remove).bindings
    ensures var s := Reached(EMPTY, run);
            && s.guard.Some?
            && (|| s.bindings[key].expires <= s.guard.value.request.completedAt
                || (s.guard.value.request.key == key && Imported(s.imports, s.bindings[key].epoch) > 0))
  {
    var s := Reached(EMPTY, run);
    EveryRunKeepsShape(run);
    EveryRunKeepsBalance(run, s.bindings[key].epoch);
  }

  // --------------------------------------------------------- failed and dropped imports

  lemma {:induction false} Extend(start: State, run: seq<Event>, e: Event)
    ensures Reached(start, run + [e]) == Next(Reached(start, run), e)
  {
    assert (run + [e])[..|run|] == run;
  }

  /** An undisturbed import up to its account write. */
  function Attempt(r: Request): seq<Event> { [Lock(r), Check, Write(Stored)] }

  lemma {:induction false} ThreeSteps(s: State, a: Event, b: Event, c: Event)
    ensures Reached(s, [a, b, c]) == Next(Next(Next(s, a), b), c)
  {
    Extend(s, [], a);
    Extend(s, [a], b);
    Extend(s, [a, b], c);
    assert [] + [a] == [a] && [a] + [b] == [a, b] && [a, b] + [c] == [a, b, c];
  }

  /**
   * A bound login is imported by whoever asks in its principal's name, with its account type and in time, and by
   * no one else.
   */
  lemma {:induction false} ImportableExactly(s: State, r: Request)
    requires s.guard == None
    ensures |Reached(s, Attempt(r)).imports| == |s.imports| + 1 <==>
            && r.accountType == r.key.0 && r.key in s.bindings
            && s.bindings[r.key].principal == r.principal && r.completedAt < s.bindings[r.key].expires
  {
    ThreeSteps(s, Lock(r), Check, Write(Stored));
  }

  /** Some continuation imports the login once more. */
  ghost predicate CanBeImported(s: State, epoch: nat) {
    exists run :: Imported(Reached(s, run).imports, epoch) > Imported(s.imports, epoch)
  }

  lemma {:induction false} ReachedConcat(start: State, a: seq<Event>, b: seq<Event>)
    ensures Reached(start, a + b) == Reached(Reached(start, a), b)
  {
    if b == [] {
      assert a + b == a;
    } else {
      ReachedConcat(start, a, b[..|b| - 1]);
      assert (a + b)[..|a + b| - 1] == a + b[..|b| - 1];
    }
  }

  lemma {:induction false} OneStep(s: State, e: Event)
    ensures Reached(s, [e]) == Next(s, e)
  {
    Extend(s, [], e);
    assert [] + [e] == [e];
  }

  lemma {:induction false} PassingCanBeImported(s: State, epoch: nat)
    requires Passing(s, epoch)
    ensures CanBeImported(s, epoch)
  {
    OneStep(s, Write(Stored));
    ImportedAppend(s.imports, Import(s.guard.value.request, s.guard.value.pc.binding), epoch);
    assert Imported(Reached(s, [Write(Stored)]).imports, epoch) > Imported(s.imports, epoch);
  }

  /** The last moment at which a bound login can be asked for, in its principal's name. */
  function InTime(key: Key, binding: Binding): Request {
    Request(key, binding.principal, key.0, binding.expires - 1)
  }

  /** The guard, freed by dropping whoever holds it. */
  function Freed(s: State): seq<Event> { if s.guard == None then [] else [Drop(false)] }

  lemma {:induction false} FreedIsFree(s: State)
    ensures var t := Reached(s, Freed(s)); t.guard == None && t.bindings == s.bindings && t.imports == s.imports
  {
    if s.guard.Some? {
      OneStep(s, Drop(false));
    }
  }

  lemma {:induction false} AttemptInTime(s: State, key: Key)
    requires s.guard == None && key in s.bindings
    ensures var r := InTime(key, s.bindings[key]);
            Reached(s, Attempt(r)).imports == s.imports + [Import(r, s.bindings[key])]
  {
    var r := InTime(key, s.bindings[key]);
    ThreeSteps(s, Lock(r), Check, Write(Stored));
  }

  lemma {:induction false} BoundCanBeImported(s: State, key: Key)
    requires key in s.bindings
    ensures CanBeImported(s, s.bindings[key].epoch)
  {
    var binding := s.bindings[key];
    var r := InTime(key, binding);
    var run := Freed(s) + Attempt(r);
    FreedIsFree(s);
    ReachedConcat(s, Freed(s), Attempt(r));
    AttemptInTime(Reached(s, Freed(s)), key);
    ImportedAppend(s.imports, Import(r, binding), binding.epoch);
    assert Imported(Reached(s, run).imports, binding.epoch) > Imported(s.imports, binding.epoch);
  }

  /**
   * When a login can still be imported, in any state and however often it was: exactly while it is bound or an
   * importer is past its check for it.
   */
  lemma {:induction false} CanBeImportedExactly(s: State, epoch: nat)
    requires epoch < s.next
    ensures CanBeImported(s, epoch) <==> Bound(s.bindings, epoch) || Passing(s, epoch)
  {
    if Passing(s, epoch) {
      PassingCanBeImported(s, epoch);
    } else if Bound(s.bindings, epoch) {
      var key :| key in s.bindings && s.bindings[key].epoch == epoch;
      BoundCanBeImported(s, key);
    } else {
      forall run ensures Imported(Reached(s, run).imports, epoch) == Imported(s.imports, epoch) {
        GoneIsNeverImported(s, run, epoch);
      }
    }
  }

  /** So a sweep without the guard ends a login for good exactly when no importer is past its check for it. */
  lemma {:induction false} SweepStopsImportExactly(s: State, now: int, epoch: nat)
    requires Bound(s.bindings, epoch) && epoch < s.next && !Bound(Live(s.bindings, now), epoch)
    ensures !CanBeImported(Next(s, Sweep(now)), epoch) <==> !Passing(s, epoch)
  {
    CanBeImportedExactly(Next(s, Sweep(now)), epoch);
  }

  /**
   * An account write that fails leaves the login bound and the guard free, so it can be imported as before; if the
   * account reached the disk unseen, or the importer was dropped during or after its write, that is once more.
   */
  lemma {:induction false} UnfinishedImportLeavesImportable(run: seq<Event>, e: Event)
    requires var s := Reached(EMPTY, run);
             && Legal(s, e) && !s.guard.None? && !s.guard.value.pc.Locked?
             && ((e.Write? && !e.outcome.Stored?) || e.Drop?)
    ensures var s := Reached(EMPTY, run);
            var after, r := Next(s, e), s.guard.value.request;
            && after.bindings == s.bindings && after.guard == None
            && (e == Write(NotStored) ==> after.imports == s.imports)
            && (r.key in s.bindings ==> |Reached(after, Attempt(r)).imports| == |after.imports| + 1)
  {
    EveryRunKeepsShape(run);
    var s := Reached(EMPTY, run);
    ImportableExactly(Next(s, e), s.guard.value.request);
  }

  /** The bound on imports is met: each importer that goes away unfinished can be followed by one more import. */
  lemma {:induction false} LostImporterAllowsAnother(run: seq<Event>, r: Request)
    requires var s := Reached(EMPTY, run);
             && s.guard == None && r.accountType == r.key.0 && r.key in s.bindings
             && s.bindings[r.key].principal == r.principal && r.completedAt < s.bindings[r.key].expires
    ensures var s := Reached(EMPTY, run);
            var again := Next(Reached(s, Attempt(r)), Drop(true));
            && |Reached(again, Attempt(r)).imports| == |s.imports| + 2
            && r.key in again.bindings && again.bindings[r.key] == s.bindings[r.key]
  {
    var s := Reached(EMPTY, run);
    ThreeSteps(s, Lock(r), Check, Write(Stored));
    var again := Next(Reached(s, Attempt(r)), Drop(true));
    ImportableExactly(again, r);
  }

  // ---------------------------------------------------------- the handlers, as they run

  /** Checked and removed at the same time, a login that was owned is gone. */
  lemma RemovedAfterCheck(b: Bindings, key: Key, principal: string, now: int)
    requires Owns(b, key, principal, now)
    ensures Owns(Live(b, now), key, principal, now)
    ensures Removed(Live(b, now), key, principal, now) == Live(b, now) - {key}
  {
    assert Live(Live(b, now), now) == Live(b, now);
  }

  class DeviceLogins {
    var bindings: Bindings
    var started: nat
    ghost var model: State
    ghost var trace: seq<Event>

    constructor ()
      ensures Idle() && bindings == map[]
    {
      bindings, started, model, trace := map[], 0, EMPTY, [];
    }

    ghost predicate Valid() reads this {
      bindings == model.bindings && started == model.next && model == Reached(EMPTY, trace)
    }

    /** No handler holds the guard. */
    ghost predicate Idle() reads this { Valid() && model.guard == None }

    ghost method Take(e: Event)
      requires model == Reached(EMPTY, trace)
      modifies this`model, this`trace
      ensures model == Next(old(model), e) && trace == old(trace) + [e] && model == Reached(EMPTY, trace)
    {
      Extend(EMPTY, trace, e);
      model, trace := Next(model, e), trace + [e];
    }

    method Cleanup(now: int)
      modifies this`bindings
      ensures bindings == Live(old(bindings), now) && Keeps(old(bindings), bindings, now, {})
    {
      BindingsExactly(bindings, ("", ""), "", now);
      bindings := map k | k in bindings && bindings[k].expires > now :: bindings[k];
    }

    method IsOwnedBy(key: Key, principal: string, now: int) returns (owned: bool)
      modifies this`bindings
      ensures bindings == Live(old(bindings), now) && Keeps(old(bindings), bindings, now, {})
      ensures owned <==> BoundTo(old(bindings), key, principal, now)
    {
      Cleanup(now);
      owned := key in bindings && bindings[key].principal == principal;
    }

    method RemoveForPrincipal(key: Key, principal: string, now: int) returns (removed: bool)
      modifies this`bindings
      ensures bindings == Removed(old(bindings), key, principal, now)
      ensures removed <==> BoundTo(old(bindings), key, principal, now)
      ensures Keeps(old(bindings), bindings, now, if removed then {key} else {})
    {
      BindingsExactly(bindings, key, principal, now);
      Cleanup(now);
      removed := key in bindings && bindings[key].principal == principal;
      if removed {
        bindings := bindings - {key};
      }
    }

    /** Starting a login binds it to its principal, in place of any login under the same code. */
    method Start(key: Key, principal: string, expires: int, now: int)
      requires Idle()
      modifies this
      ensures Idle() && key in bindings && bindings[key] == Binding(principal, expires, old(started))
      ensures Keeps(old(bindings), bindings - {key}, now, {key})
    {
      Cleanup(now);
      bindings := bindings[key := Binding(principal, expires, started)];
      started := started + 1;
      Take(Bind(key, principal, expires, now));
    }

    method CancelLogin(key: Key, principal: string, now: int) returns (cancelled: bool)
      requires Idle()
      modifies this
      ensures Idle() && (cancelled <==> BoundTo(old(bindings), key, principal, now))
      ensures Keeps(old(bindings), bindings, now, if cancelled then {key} else {})
    {
      cancelled := RemoveForPrincipal(key, principal, now);
      Take(Cancel(key, principal, now));
    }

    /**
     * `persist_completed_device_login`, with `outcome` for how the account write ends. It imports exactly the
     * logins that are importable, and every path through it is a run of the model.
     */
    method Persist(r: Request, outcome: Outcome) returns (imported: bool)
      requires Idle()
      modifies this
      ensures Idle()
      ensures var importable := r.accountType == r.key.0 && BoundTo(old(bindings), r.key, r.principal, r.completedAt);
              && (imported <==> importable && outcome.Stored?)
              && |model.imports| == |old(model.imports)| + if importable && !outcome.NotStored? then 1 else 0
      ensures r.accountType == r.key.0 ==>
                Keeps(old(bindings), bindings, r.completedAt, if imported then {r.key} else {})
      ensures r.accountType != r.key.0 ==> bindings == old(bindings)
    {
      BindingsExactly(bindings, r.key, r.principal, r.completedAt);
      imported := false;
      if r.accountType == r.key.0 {
        imported := ImportUnderGuard(r, outcome);
      }
    }

    /** The import of an account of the right type, from taking the guard to letting it go. */
    method ImportUnderGuard(r: Request, outcome: Outcome) returns (imported: bool)
      requires Idle() && r.accountType == r.key.0
      modifies this
      ensures Idle()
      ensures var owned := Owns(old(bindings), r.key, r.principal, r.completedAt);
              && (imported <==> owned && outcome.Stored?)
              && |model.imports| == |old(model.imports)| + if owned && !outcome.NotStored? then 1 else 0
      ensures var live := Live(old(bindings), r.completedAt);
              bindings == if imported then live - {r.key} else live
    {
      imported := false;
      BindingsExactly(bindings, r.key, r.principal, r.completedAt);
      Take(Lock(r));
      var owned := IsOwnedBy(r.key, r.principal, r.completedAt);
      Take(Check);
      if !owned {
        return;
      }
      imported := WriteAndRemove(r, old(bindings), outcome);
    }

    /** The rest of an import, past its check. */
    method WriteAndRemove(r: Request, ghost before: Bindings, outcome: Outcome) returns (imported: bool)
      requires Valid() && Owns(before, r.key, r.principal, r.completedAt) && bindings == Live(before, r.completedAt)
      requires model.guard == Some(Importer(r, Passed(before[r.key])))
      modifies this
      ensures Idle() && imported == outcome.Stored?
      ensures |model.imports| == |old(model.imports)| + if outcome.NotStored? then 0 else 1
      ensures bindings == if imported then Live(before, r.completedAt) - {r.key} else Live(before, r.completedAt)
    {
      Take(Write(outcome));
      if !outcome.Stored? {
        return false;
      }
      RemovedAfterCheck(before, r.key, r.principal, r.completedAt);
      imported := RemoveForPrincipal(r.key, r.principal, r.completedAt);
      Take(Remove);
    }
  }
}
