/**
 The Antigravity request identity: one immutable identity per effective version,
 with an opaque generation that fences A -> B -> A changes. Generations are random
 in the program; here every event carries the value it would draw.
 */
module AntigravityIdentity {
  import opened Prelude

  datatype Identity = Identity(version: string, userAgent: string, generation: string)

  function NewIdentity(version: string, generation: string): Identity {
    Identity(version, "antigravity/hub/" + version + " darwin/arm64", generation)
  }

  predicate VersionChar(c: char) {
    'a' <= c <= 'z' || 'A' <= c <= 'Z' || '0' <= c <= '9' || c == '.' || c == '-' || c == '_' || c == '+'
  }

  predicate ValidVersion(version: string) {
    0 < |version| <= 64 && forall i :: 0 <= i < |version| ==> VersionChar(version[i])
  }

  function Effective(configured: Option<string>, cached: string): string {
    if configured.Some? then configured.value else cached
  }

  // ----------------------------------------------------------------- the object

  class IdentityState {
    var cachedVersion: string
    var current: Identity

    ghost function View(): State
      reads this
    {
      State(cachedVersion, current)
    }

    constructor (version: string, draw: string)
      ensures View() == Initial(version, draw)
    {
      cachedVersion := version;
      current := NewIdentity(version, draw);
    }

    method Capture(configured: Option<string>, draw: string) returns (identity: Identity)
      modifies `current
      ensures View() == Next(old(View()), Event(CaptureCall, configured, draw))
      ensures identity == current
    {
      var effective := if configured.Some? then configured.value else cachedVersion;
      if current.version != effective {
        current := NewIdentity(effective, draw);
      }
      identity := current;
    }

    method Update(version: string, configured: Option<string>, draw: string) returns (accepted: bool)
      modifies this
      ensures View() == Next(old(View()), Event(UpdateCall(version), configured, draw))
      ensures accepted == ValidVersion(version)
      ensures !accepted ==> View() == old(View())
    {
      if !ValidVersion(version) {
        return false;
      }
      cachedVersion := version;
      var _ := Capture(configured, draw);
      return true;
    }
  }

  // ----------------------------------------------------------------------- runs

  datatype State = State(cachedVersion: string, current: Identity)

  const FALLBACK_VERSION := "2.2.1"

  /** A restart builds the state anew from the built-in version. */
  datatype Request = CaptureCall | UpdateCall(version: string) | Restart

  datatype Event = Event(request: Request, configured: Option<string>, draw: string)

  function Initial(version: string, draw: string): State {
    State(version, NewIdentity(version, draw))
  }

  /** The effective version an event observes; a rejected update observes nothing. */
  function Observed(s: State, e: Event): Option<string> {
    match e.request
    case CaptureCall => Some(Effective(e.configured, s.cachedVersion))
    case UpdateCall(v) => if ValidVersion(v) then Some(Effective(e.configured, v)) else None
    case Restart => None
  }

  function Next(s: State, e: Event): State {
    if e.request.Restart? then Initial(FALLBACK_VERSION, e.draw) else
    var cached := match e.request
                  case CaptureCall => s.cachedVersion
                  case UpdateCall(v) => if ValidVersion(v) then v else s.cachedVersion
                  case Restart => FALLBACK_VERSION;
    var seen := Observed(s, e);
    State(cached,
          if seen.Some? && seen.value != s.current.version then NewIdentity(seen.value, e.draw) else s.current)
  }

  function Reached(start: State, run: seq<Event>): State {
    if run == [] then start else Next(Reached(start, run[..|run| - 1]), run[|run| - 1])
  }

  /** The process does not restart along `run`, and every effective version it observes is `version`. */
  predicate OnlyObserves(start: State, run: seq<Event>, version: string) {
    run == [] ||
    (&& OnlyObserves(start, run[..|run| - 1], version)
     && !run[|run| - 1].request.Restart?
     && var seen := Observed(Reached(start, run[..|run| - 1]), run[|run| - 1]);
        seen.Some? ==> seen.value == version)
  }

  /** None of the generations drawn along `run` is `generation`. */
  predicate NeverDraws(run: seq<Event>, generation: string) {
    forall i :: 0 <= i < |run| ==> run[i].draw != generation
  }

  /** Generations drawn along a run are pairwise different. */
  predicate FreshDraws(run: seq<Event>) {
    forall i, j :: 0 <= i < j < |run| ==> run[i].draw != run[j].draw
  }

  /** The identity after a run is the one before it, or carries a generation drawn along the run. */
  lemma {:induction false} GenerationComesFromRun(start: State, run: seq<Event>)
    ensures var after := Reached(start, run).current;
            after == start.current || exists i :: 0 <= i < |run| && run[i].draw == after.generation
  {
    if run != [] {
      var init, e := run[..|run| - 1], run[|run| - 1];
      GenerationComesFromRun(start, init);
      var after := Reached(start, run).current;
      if after == Reached(start, init).current {
        if after != start.current {
          var i :| 0 <= i < |init| && init[i].draw == after.generation;
          assert run[i].draw == after.generation;
        }
      } else {
        assert run[|run| - 1].draw == after.generation;
      }
    }
  }

  /** Once the current identity has changed, no later event brings the old one back. */
  lemma {:induction false} ChangedIdentityIsGone(start: State, run: seq<Event>)
    requires FreshDraws(run) && NeverDraws(run, start.current.generation)
    ensures Reached(start, run).current == start.current
            <==> OnlyObserves(start, run, start.current.version)
  {
    if run != [] {
      var init, e := run[..|run| - 1], run[|run| - 1];
      ChangedIdentityIsGone(start, init);
      var before := Reached(start, init);
      if before.current != start.current {
        GenerationComesFromRun(start, run);
        GenerationComesFromRun(start, init);
        assert run[|run| - 1].draw != start.current.generation;
        var i :| 0 <= i < |init| && init[i].draw == before.current.generation;
        assert run[i].draw == before.current.generation;
      }
    }
  }

  /** A run that starts in a new process and draws fresh generations throughout. */
  predicate FreshRun(draw: string, run: seq<Event>) {
    FreshDraws(run) && NeverDraws(run, draw)
  }

  /**
   Over every run with fresh generations: the identities current at two moments are
   equal exactly when the process did not restart in between and every effective
   version it observed is the one the earlier identity carries. So once another
   version has been observed, the old identity is never current again, whatever is
   observed later.
   */
  lemma EqualExactlyWhenNothingElseObserved(version: string, draw: string, before: seq<Event>, between: seq<Event>)
    requires FreshRun(draw, before + between)
    ensures var start := Initial(version, draw);
            var early := Reached(start, before);
            && Reached(start, before + between) == Reached(early, between)
            && (Reached(start, before + between).current == early.current
                <==> OnlyObserves(early, between, early.current.version))
  {
    var start := Initial(version, draw);
    var early := Reached(start, before);
    ReachedConcat(start, before, between);
    GenerationComesFromRun(start, before);
    forall i | 0 <= i < |between|
      ensures between[i].draw != early.current.generation
    {
      assert (before + between)[|before| + i] == between[i];
      if early.current != start.current {
        var j :| 0 <= j < |before| && before[j].draw == early.current.generation;
        assert (before + between)[j] == before[j];
      }
    }
    forall i, j | 0 <= i < j < |between|
      ensures between[i].draw != between[j].draw
    {
      assert (before + between)[|before| + i] == between[i] && (before + between)[|before| + j] == between[j];
    }
    ChangedIdentityIsGone(early, between);
  }

  lemma {:induction false} ReachedConcat(start: State, a: seq<Event>, b: seq<Event>)
    ensures Reached(start, a + b) == Reached(Reached(start, a), b)
  {
    if b == [] {
      assert a + b == a;
    } else {
      assert (a + b)[..|a + b| - 1] == a + b[..|b| - 1];
      ReachedConcat(start, a, b[..|b| - 1]);
    }
  }

  // -------------------------------------------------------------- what a capture gives

  /** 1 to 64 ASCII letters, digits, dots, dashes, underscores and plus signs, by their codes. */
  predicate Accepted(version: string) {
    && 1 <= |version| <= 64
    && forall i :: 0 <= i < |version| ==>
         var n := version[i] as int;
         97 <= n <= 122 || 65 <= n <= 90 || 48 <= n <= 57 || n == 46 || n == 45 || n == 95 || n == 43
  }

  lemma AcceptedExactly(version: string)
    ensures ValidVersion(version) <==> Accepted(version)
  {
  }

  /** The last version an update brought and was accepted, since the process started with `first` or restarted. */
  function LastAccepted(first: string, run: seq<Event>): string {
    if run == [] then first
    else
      match run[|run| - 1].request
      case UpdateCall(v) => if Accepted(v) then v else LastAccepted(first, run[..|run| - 1])
      case Restart => "2.2.1"
      case CaptureCall => LastAccepted(first, run[..|run| - 1])
  }

  lemma {:induction false} CachedIsLastAccepted(first: string, draw: string, run: seq<Event>)
    ensures Reached(Initial(first, draw), run).cachedVersion == LastAccepted(first, run)
  {
    if run != [] {
      CachedIsLastAccepted(first, draw, run[..|run| - 1]);
      if run[|run| - 1].request.UpdateCall? {
        AcceptedExactly(run[|run| - 1].request.version);
      }
    }
  }

  /** An identity names its own version in its user agent. */
  predicate NamesItself(i: Identity) { i.userAgent == "antigravity/hub/" + i.version + " darwin/arm64" }

  lemma {:induction false} EveryRunNamesItself(first: string, draw: string, run: seq<Event>)
    ensures NamesItself(Reached(Initial(first, draw), run).current)
  {
    if run != [] {
      EveryRunNamesItself(first, draw, run[..|run| - 1]);
    }
  }

  /**
   After any run a capture gives the configured version when one is configured, and the
   last accepted update otherwise, with a user agent that names it; the generation is new
   exactly when the version is not the current one.
   */
  lemma {:induction false} CaptureGives(
    first: string, draw: string, run: seq<Event>, configured: Option<string>, drawn: string)
    ensures var before := Reached(Initial(first, draw), run).current;
            var given := Reached(Initial(first, draw), run + [Event(CaptureCall, configured, drawn)]).current;
            var version := if configured.Some? then configured.value else LastAccepted(first, run);
            && given.version == version && given.userAgent == "antigravity/hub/" + version + " darwin/arm64"
            && given.generation == (if version == before.version then before.generation else drawn)
  {
    var e := Event(CaptureCall, configured, drawn);
    CachedIsLastAccepted(first, draw, run);
    EveryRunNamesItself(first, draw, run);
    EveryRunNamesItself(first, draw, run + [e]);
    assert (run + [e])[..|run|] == run;
  }

  /** An accepted update does so too, from the version it brings; a rejected one leaves the identity as it was. */
  lemma {:induction false} UpdateGives(
    first: string, draw: string, run: seq<Event>, version: string, configured: Option<string>, drawn: string)
    ensures var before := Reached(Initial(first, draw), run);
            var after := Reached(Initial(first, draw), run + [Event(UpdateCall(version), configured, drawn)]);
            if Accepted(version)
            then after.cachedVersion == version
                 && after.current.version == (if configured.Some? then configured.value else version)
            else after == before
  {
    var e := Event(UpdateCall(version), configured, drawn);
    AcceptedExactly(version);
    assert (run + [e])[..|run|] == run;
  }
}
