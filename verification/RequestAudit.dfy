/**
 The audit lifecycle of one inference request: a guard that is armed while the
 handler runs, and a wrapped response body that watches frames, errors, the end of
 the stream and its own drop. Whatever happens, one terminal event is emitted.
 */
module RequestAudit {
  import opened Prelude

  datatype Finish = Completed | StreamError | DownstreamCancelled | HandlerCancelled

  // ------------------------------------------------------------ terminal events

  datatype Terminal = Terminal(finish: Finish, status: nat, name: string, outcome: string)

  /** A completed stream can still report that its provider or its client failed. */
  function SemanticStatus(status: nat, finish: Finish, streamStatus: Option<string>): nat {
    if finish != Completed then status
    else if streamStatus == Some("provider_failed") then 502
    else if streamStatus == Some("client_error") then 400
    else status
  }

  function EventName(status: nat, interrupted: bool): string {
    if interrupted then "inference.request.interrupted"
    else if 400 <= status < 500 then "inference.request.rejected"
    else if 500 <= status < 600 then "inference.request.failed"
    else "inference.request.completed"
  }

  function Outcome(status: nat, finish: Finish): string {
    if finish != Completed then "interrupted"
    else if 200 <= status < 400 then "completed"
    else if 400 <= status < 500 then "rejected"
    else "failed"
  }

  function TerminalOf(status: nat, finish: Finish, streamStatus: Option<string>): Terminal {
    var semantic := SemanticStatus(status, finish, streamStatus);
    Terminal(finish, semantic, EventName(semantic, finish != Completed), Outcome(semantic, finish))
  }

  /**
   The event name and the outcome of a terminal event say the same thing exactly for
   interrupted requests and for final statuses from 200 to 599; for 1xx, and for 600
   and above, a completed request is named "completed" but its outcome is "failed".
   */
  lemma NameAgreesWithOutcome(status: nat, finish: Finish, streamStatus: Option<string>)
    ensures var t := TerminalOf(status, finish, streamStatus);
            t.name == "inference.request." + t.outcome <==> finish != Completed || 200 <= t.status < 600
  {
    var t := TerminalOf(status, finish, streamStatus);
    var prefix := "inference.request.";
    assert (prefix + "failed")[|prefix|] == 'f' && (prefix + "completed")[|prefix|] == 'c';
    assert prefix + "interrupted" == "inference.request.interrupted";
    assert prefix + "rejected" == "inference.request.rejected";
    assert prefix + "failed" == "inference.request.failed";
    assert prefix + "completed" == "inference.request.completed";
  }

  /** What a terminal event reports of a response with this HTTP status, whose stream ended with this status. */
  predicate Reports(t: Terminal, status: nat, streamStatus: Option<string>) {
    if t.finish != Completed
    then t.status == status && t.name == "inference.request.interrupted" && t.outcome == "interrupted"
    else
      && t.status == (if streamStatus == Some("provider_failed") then 502
                      else if streamStatus == Some("client_error") then 400 else status)
      && (t.name == "inference.request.rejected" <==> 400 <= t.status <= 499)
      && (t.name == "inference.request.failed" <==> 500 <= t.status <= 599)
      && (t.name == "inference.request.completed" <==> t.status < 400 || t.status > 599)
      && (t.outcome == "completed" <==> 200 <= t.status <= 399)
      && (t.outcome == "rejected" <==> 400 <= t.status <= 499)
      && (t.outcome == "failed" <==> t.status < 200 || t.status > 499)
  }

  lemma TerminalReports(status: nat, finish: Finish, streamStatus: Option<string>)
    ensures Reports(TerminalOf(status, finish, streamStatus), status, streamStatus)
    ensures TerminalOf(status, finish, streamStatus).finish == finish
  {
    assert |"inference.request.rejected"| == 26 && |"inference.request.failed"| == 24;
    assert |"inference.request.completed"| == 27;
    assert |"completed"| == 9 && |"rejected"| == 8 && |"failed"| == 6;
  }

  // --------------------------------------------------------------- the objects

  class AuditTrail {
    var terminals: seq<Terminal>

    constructor ()
      ensures terminals == []
    {
      terminals := [];
    }
  }

  class RequestAuditLifecycle {
    const trail: AuditTrail
    const status: nat
    var finished: bool

    constructor (trail: AuditTrail, status: nat)
      ensures this.trail == trail && this.status == status && !finished
    {
      this.trail, this.status, finished := trail, status, false;
    }

    method FinishAs(finish: Finish, streamStatus: Option<string>)
      modifies this, trail
      ensures finished
      ensures trail.terminals == old(trail.terminals)
              + if old(finished) then [] else [TerminalOf(status, finish, streamStatus)]
      ensures !old(finished) ==>
                |trail.terminals| == |old(trail.terminals)| + 1
                && trail.terminals[|old(trail.terminals)|].finish == finish
                && Reports(trail.terminals[|old(trail.terminals)|], status, streamStatus)
    {
      TerminalReports(status, finish, streamStatus);
      if finished {
        return;
      }
      finished := true;
      trail.terminals := trail.terminals + [TerminalOf(status, finish, streamStatus)];
    }
  }

  /** The guard held while the handler runs. */
  class PendingRequestAudit {
    var lifecycle: RequestAuditLifecycle?

    constructor (lifecycle: RequestAuditLifecycle)
      ensures this.lifecycle == lifecycle
    {
      this.lifecycle := lifecycle;
    }

    method Disarm()
      modifies this
      ensures lifecycle == null
    {
      lifecycle := null;
    }

    method Drop()
      requires lifecycle != null ==> !lifecycle.finished
      modifies this, lifecycle, if lifecycle == null then {} else {lifecycle.trail}
      ensures lifecycle == null
      ensures old(lifecycle) != null ==>
                old(lifecycle).trail.terminals == old(lifecycle.trail.terminals)
                + [TerminalOf(old(lifecycle).status, HandlerCancelled, None)]
    {
      if lifecycle != null {
        lifecycle.FinishAs(HandlerCancelled, None);
        lifecycle := null;
      }
    }
  }

  /** What polling the inner body returned. */
  datatype Polled = NotReady | End | Error | DataFrame(length: nat) | OtherFrame

  /** One thing that happens to the wrapped body; `ended` is what the inner body says after a frame. */
  datatype Signal = Poll(polled: Polled, ended: bool) | Drop

  datatype Body = Body(live: bool, remaining: Option<nat>)

  function CountDown(remaining: Option<nat>, polled: Polled): Option<nat> {
    if !polled.DataFrame? || remaining.None? then remaining
    else if polled.length <= remaining.value then Some(remaining.value - polled.length)
    else None
  }

  /** The finish a signal calls for, if the lifecycle is still there. */
  function Calls(remaining: Option<nat>, s: Signal): Option<Finish> {
    match s
    case Drop => Some(DownstreamCancelled)
    case Poll(NotReady, _) => None
    case Poll(End, _) => Some(Completed)
    case Poll(Error, _) => Some(StreamError)
    case Poll(polled, ended) =>
      if (polled.DataFrame? && CountDown(remaining, polled) == Some(0)) || ended then Some(Completed) else None
  }

  function Watch(b: Body, s: Signal): Body {
    Body(b.live && Calls(b.remaining, s).None?,
         if s.Poll? then CountDown(b.remaining, s.polled) else b.remaining)
  }

  /** A size hint counts down only when it is exact and positive. */
  function Attach(hint: Option<nat>): Body {
    Body(true, if hint.Some? && hint.value > 0 then hint else None)
  }

  /** The terminal event a signal makes a body emit, if any. */
  function Emitted(b: Body, status: nat, s: Signal, streamStatus: Option<string>): seq<Terminal> {
    var call := Calls(b.remaining, s);
    if b.live && call.Some? then [TerminalOf(status, call.value, streamStatus)] else []
  }

  class AuditedResponseBody {
    var lifecycle: RequestAuditLifecycle?
    var remainingExact: Option<nat>

    ghost function View(): Body
      reads this
    {
      Body(lifecycle != null, remainingExact)
    }

    constructor (lifecycle: RequestAuditLifecycle, hint: Option<nat>)
      ensures this.lifecycle == lifecycle && View() == Attach(hint)
    {
      this.lifecycle := lifecycle;
      remainingExact := if hint.Some? && hint.value > 0 then hint else None;
    }

    /** Takes the lifecycle, if it is still there, and finishes it. */
    method TakeAndFinish(finish: Finish, streamStatus: Option<string>)
      requires lifecycle != null ==> !lifecycle.finished
      modifies `lifecycle, lifecycle, if lifecycle == null then {} else {lifecycle.trail}
      ensures lifecycle == null
      ensures old(lifecycle) != null ==>
                old(lifecycle).trail.terminals == old(lifecycle.trail.terminals)
                + [TerminalOf(old(lifecycle).status, finish, streamStatus)]
    {
      if lifecycle != null {
        lifecycle.FinishAs(finish, streamStatus);
        lifecycle := null;
      }
    }

    method PollFrame(polled: Polled, ended: bool, streamStatus: Option<string>)
      requires lifecycle != null ==> !lifecycle.finished
      modifies this, lifecycle, if lifecycle == null then {} else {lifecycle.trail}
      ensures View() == Watch(old(View()), Poll(polled, ended))
      ensures lifecycle != null ==> lifecycle == old(lifecycle) && !lifecycle.finished
      ensures old(lifecycle) != null ==>
                var call := Calls(old(remainingExact), Poll(polled, ended));
                old(lifecycle).trail.terminals == old(lifecycle.trail.terminals)
                + if call.Some? then [TerminalOf(old(lifecycle).status, call.value, streamStatus)] else []
    {
      if polled == NotReady {
        return;
      }
      if polled == End {
        TakeAndFinish(Completed, streamStatus);
      } else if polled == Error {
        TakeAndFinish(StreamError, streamStatus);
      } else {
        var consumed := false;
        if polled.DataFrame? && remainingExact.Some? {
          if polled.length <= remainingExact.value {
            remainingExact := Some(remainingExact.value - polled.length);
            consumed := remainingExact == Some(0);
          } else {
            remainingExact := None;
          }
        }
        if consumed || ended {
          TakeAndFinish(Completed, streamStatus);
        }
      }
    }

    method DropBody(streamStatus: Option<string>)
      requires lifecycle != null ==> !lifecycle.finished
      modifies this, lifecycle, if lifecycle == null then {} else {lifecycle.trail}
      ensures lifecycle == null && View() == Watch(old(View()), Drop)
      ensures old(lifecycle) != null ==>
                old(lifecycle).trail.terminals == old(lifecycle.trail.terminals)
                + [TerminalOf(old(lifecycle).status, DownstreamCancelled, streamStatus)]
    {
      TakeAndFinish(DownstreamCancelled, streamStatus);
    }

    /** Whatever happens to the body next. */
    method Handle(s: Signal, streamStatus: Option<string>)
      requires lifecycle != null ==> !lifecycle.finished
      modifies this, lifecycle, if lifecycle == null then {} else {lifecycle.trail}
      ensures View() == Watch(old(View()), s)
      ensures lifecycle != null ==> lifecycle == old(lifecycle) && !lifecycle.finished
      ensures old(lifecycle) != null ==>
                old(lifecycle).trail.terminals
                == old(lifecycle.trail.terminals) + Emitted(old(View()), old(lifecycle).status, s, streamStatus)
    {
      match s
      case Drop => DropBody(streamStatus);
      case Poll(polled, ended) => PollFrame(polled, ended, streamStatus);
    }
  }

  // ---------------------------------------------------------------------- traces

  function Watched(hint: Option<nat>, signals: seq<Signal>): Body {
    if signals == [] then Attach(hint)
    else Watch(Watched(hint, signals[..|signals| - 1]), signals[|signals| - 1])
  }

  /** The finishes a trace of body signals emits. */
  function Finishes(hint: Option<nat>, signals: seq<Signal>): seq<Finish> {
    if signals == [] then []
    else
      var before := Watched(hint, signals[..|signals| - 1]);
      var call := Calls(before.remaining, signals[|signals| - 1]);
      Finishes(hint, signals[..|signals| - 1])
      + if before.live && call.Some? then [call.value] else []
  }

  /** The bytes delivered by the data frames of a trace. */
  function Delivered(signals: seq<Signal>): nat {
    if signals == [] then 0
    else
      var last := signals[|signals| - 1];
      Delivered(signals[..|signals| - 1])
      + if last.Poll? && last.polled.DataFrame? then last.polled.length else 0
  }

  /** Signal `i` is a data frame with which exactly the hinted number of bytes has been delivered. */
  predicate CompletesLength(hint: Option<nat>, signals: seq<Signal>, i: nat) {
    && i < |signals| && signals[i].Poll? && signals[i].polled.DataFrame?
    && hint.Some? && hint.value > 0
    && Delivered(signals[..i + 1]) == hint.value
  }

  /** What signal `i` decides about the request, said from the trace alone. */
  function Decides(hint: Option<nat>, signals: seq<Signal>, i: nat): Option<Finish>
    requires i < |signals|
  {
    match signals[i]
    case Drop => Some(DownstreamCancelled)
    case Poll(NotReady, _) => None
    case Poll(End, _) => Some(Completed)
    case Poll(Error, _) => Some(StreamError)
    case Poll(_, ended) => if ended || CompletesLength(hint, signals, i) then Some(Completed) else None
  }

  /** The counter says how much of an exact, positive hint is still to come, and nothing after an overshoot. */
  lemma {:induction false} CounterTracksDelivery(hint: Option<nat>, signals: seq<Signal>)
    ensures Watched(hint, signals).remaining
            == if hint.Some? && hint.value > 0 && Delivered(signals) <= hint.value
               then Some(hint.value - Delivered(signals)) else None
  {
    if signals != [] {
      CounterTracksDelivery(hint, signals[..|signals| - 1]);
    }
  }

  /** `i` is the first signal that decides anything. */
  predicate FirstDecisive(hint: Option<nat>, signals: seq<Signal>, i: nat) {
    && i < |signals| && Decides(hint, signals, i).Some?
    && forall j :: 0 <= j < i ==> Decides(hint, signals, j).None?
  }

  lemma CallsIsDecides(hint: Option<nat>, signals: seq<Signal>)
    requires signals != []
    ensures Calls(Watched(hint, signals[..|signals| - 1]).remaining, signals[|signals| - 1])
            == Decides(hint, signals, |signals| - 1)
  {
    CounterTracksDelivery(hint, signals[..|signals| - 1]);
    assert signals[..|signals| - 1 + 1] == signals;
  }

  lemma DecidesInPrefix(hint: Option<nat>, signals: seq<Signal>, n: nat, i: nat)
    requires i < n <= |signals|
    ensures Decides(hint, signals[..n], i) == Decides(hint, signals, i)
  {
    assert signals[..n][..i + 1] == signals[..i + 1];
  }

  /** The finish is emitted once, by the first decisive signal, and is of that signal's kind. */
  lemma {:induction false} FirstDecisiveSignalFinishes(hint: Option<nat>, signals: seq<Signal>)
    ensures Watched(hint, signals).live <==> forall i :: 0 <= i < |signals| ==> Decides(hint, signals, i).None?
    ensures Watched(hint, signals).live ==> Finishes(hint, signals) == []
    ensures !Watched(hint, signals).live ==>
              exists i: nat :: FirstDecisive(hint, signals, i)
                               && Finishes(hint, signals) == [Decides(hint, signals, i).value]
  {
    if signals != [] {
      var n := |signals| - 1;
      var init := signals[..n];
      FirstDecisiveSignalFinishes(hint, init);
      CallsIsDecides(hint, signals);
      forall i | 0 <= i < n
        ensures Decides(hint, init, i) == Decides(hint, signals, i)
      {
        DecidesInPrefix(hint, signals, n, i);
      }
      if Watched(hint, init).live {
        if Decides(hint, signals, n).Some? {
          assert FirstDecisive(hint, signals, n);
        }
      } else {
        var i: nat :| FirstDecisive(hint, init, i) && Finishes(hint, init) == [Decides(hint, init, i).value];
        assert FirstDecisive(hint, signals, i);
      }
    }
  }

  // --------------------------------------------------------------- whole requests

  /** How the handler ends: dropped, or with a response whose body may already be over. */
  datatype Handler = HandlerDropped | Responded(ended: bool, hint: Option<nat>)

  /** The finishes of an admitted request. */
  function RequestFinishes(handler: Handler, signals: seq<Signal>): seq<Finish> {
    match handler
    case HandlerDropped => [HandlerCancelled]
    case Responded(true, _) => [Completed]
    case Responded(false, hint) => Finishes(hint, signals)
  }

  /** The request is over: its handler was dropped, its body was empty, or its body was dropped. */
  predicate Over(handler: Handler, signals: seq<Signal>) {
    handler.HandlerDropped? || handler.ended || Drop in signals
  }

  /**
   For every way the handler ends and every trace of frames, errors, end of stream
   and drop, an admitted request gets at most one terminal finish, and exactly one
   once it is over; a response that streams is finished by its first decisive signal.
   */
  lemma ExactlyOneFinish(handler: Handler, signals: seq<Signal>)
    ensures |RequestFinishes(handler, signals)| <= 1
    ensures Over(handler, signals) ==> |RequestFinishes(handler, signals)| == 1
    ensures handler.Responded? && !handler.ended ==>
              forall i: nat :: FirstDecisive(handler.hint, signals, i) ==>
                RequestFinishes(handler, signals) == [Decides(handler.hint, signals, i).value]
  {
    if handler.Responded? && !handler.ended {
      FirstDecisiveSignalFinishes(handler.hint, signals);
      if Drop in signals {
        var i :| 0 <= i < |signals| && signals[i] == Drop;
        assert Decides(handler.hint, signals, i).Some?;
      }
      forall i: nat | FirstDecisive(handler.hint, signals, i)
        ensures RequestFinishes(handler, signals) == [Decides(handler.hint, signals, i).value]
      {
        var k: nat :| FirstDecisive(handler.hint, signals, k)
                      && Finishes(handler.hint, signals) == [Decides(handler.hint, signals, k).value];
        assert i == k;
      }
    }
  }

  /** The terminal events that go with a list of finishes. */
  function Terminals(status: nat, finishes: seq<Finish>, streamStatus: Option<string>): seq<Terminal> {
    if finishes == [] then []
    else Terminals(status, finishes[..|finishes| - 1], streamStatus)
         + [TerminalOf(status, finishes[|finishes| - 1], streamStatus)]
  }

  /** Each finish gives one event, of its kind, that reports the response. */
  lemma {:induction false} TerminalsReport(status: nat, finishes: seq<Finish>, streamStatus: Option<string>)
    ensures var events := Terminals(status, finishes, streamStatus);
            && |events| == |finishes|
            && forall i :: 0 <= i < |events| ==>
                 events[i].finish == finishes[i] && Reports(events[i], status, streamStatus)
  {
    if finishes != [] {
      TerminalsReport(status, finishes[..|finishes| - 1], streamStatus);
      TerminalReports(status, finishes[|finishes| - 1], streamStatus);
    }
  }

  /** Status recorded when the handler itself is dropped. */
  const CLIENT_CLOSED_REQUEST := 499

  /**
   One admitted request on the objects: arm the guard, run the handler, and either
   drop the guard or disarm it and watch the response body. The trail ends up with
   exactly the terminal events of the trace.
   */
  method AuditRequest(handler: Handler, status: nat, signals: seq<Signal>, streamStatus: Option<string>)
    returns (trail: AuditTrail)
    ensures fresh(trail)
    ensures trail.terminals ==
            if handler.HandlerDropped? then [TerminalOf(CLIENT_CLOSED_REQUEST, HandlerCancelled, None)]
            else Terminals(status, RequestFinishes(handler, signals), streamStatus)
    ensures handler.HandlerDropped? ==>
              |trail.terminals| == 1 && trail.terminals[0].finish == HandlerCancelled
              && Reports(trail.terminals[0], 499, None)
    ensures handler.Responded? ==>
              && |trail.terminals| == |RequestFinishes(handler, signals)| <= 1
              && forall i :: 0 <= i < |trail.terminals| ==>
                   && trail.terminals[i].finish == RequestFinishes(handler, signals)[i]
                   && Reports(trail.terminals[i], status, streamStatus)
  {
    TerminalReports(CLIENT_CLOSED_REQUEST, HandlerCancelled, None);
    TerminalsReport(status, RequestFinishes(handler, signals), streamStatus);
    ExactlyOneFinish(handler, signals);
    trail := new AuditTrail();
    var guarded := new RequestAuditLifecycle(trail, CLIENT_CLOSED_REQUEST);
    var pending := new PendingRequestAudit(guarded);
    if handler.HandlerDropped? {
      pending.Drop();
      return;
    }
    pending.Disarm();
    var lifecycle := new RequestAuditLifecycle(trail, status);
    if handler.ended {
      lifecycle.FinishAs(Completed, streamStatus);
      assert [Completed][..0] == [];
      return;
    }
    WatchBody(lifecycle, handler.hint, signals, streamStatus);
  }

  /** The terminal events of a trace, one signal at a time. */
  lemma TerminalsStep(
    status: nat, hint: Option<nat>, signals: seq<Signal>, i: nat, streamStatus: Option<string>)
    requires i < |signals|
    ensures var before := Watched(hint, signals[..i]);
            && Watched(hint, signals[..i + 1]) == Watch(before, signals[i])
            && Terminals(status, Finishes(hint, signals[..i + 1]), streamStatus)
               == Terminals(status, Finishes(hint, signals[..i]), streamStatus)
                  + Emitted(before, status, signals[i], streamStatus)
  {
    assert signals[..i + 1][..i] == signals[..i];
    var finishes := Finishes(hint, signals[..i]);
    var call := Calls(Watched(hint, signals[..i]).remaining, signals[i]);
    assert finishes + [] == finishes;
    assert call.Some? ==> (finishes + [call.value])[..|finishes|] == finishes;
  }

  /** The wrapped body of one response, from its first poll to whatever comes last. */
  method WatchBody(
      lifecycle: RequestAuditLifecycle, hint: Option<nat>, signals: seq<Signal>, streamStatus: Option<string>)
    requires !lifecycle.finished && lifecycle.trail.terminals == []
    modifies lifecycle, lifecycle.trail
    ensures lifecycle.trail.terminals == Terminals(lifecycle.status, Finishes(hint, signals), streamStatus)
  {
    var body := new AuditedResponseBody(lifecycle, hint);
    ghost var trail, status, events := lifecycle.trail, lifecycle.status, [];
    for i := 0 to |signals|
      invariant fresh(body)
      invariant body.lifecycle != null ==> body.lifecycle == lifecycle && !lifecycle.finished
      invariant body.View() == Watched(hint, signals[..i])
      invariant trail.terminals == events
      invariant events == Terminals(status, Finishes(hint, signals[..i]), streamStatus)
    {
      TerminalsStep(status, hint, signals, i, streamStatus);
      ghost var emitted := Emitted(body.View(), status, signals[i], streamStatus);
      assert body.lifecycle == null ==> events + emitted == events;
      body.Handle(signals[i], streamStatus);
      events := events + emitted;
    }
    assert signals[..|signals|] == signals;
  }
}
