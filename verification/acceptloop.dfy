/** The accept loop of `main` as a state machine driven by a trace of events.
    The socket is abstracted to what each `accept` returned, and the signal
    handler to the value of the `running` flag the loop reads at a boundary. */
module AcceptLoop {
  import opened Bytes

  /** Milliseconds a served connection is held open before it is shut down. */
  const HoldMillis: nat := 1000

  /** What one poll of the non-blocking listener returned. A connection also
      records whether asking for its peer address and shutting it down
      succeeded. */
  datatype Accept =
    | Connection(peerKnown: bool, shutdownOk: bool)
    | WouldBlock
    | Failure

  /** One pass through the loop: the accept result and the value of `running`
      read at the end of the pass (where the source reads it at all). */
  datatype Event = Event(accept: Accept, running: bool)

  /** `Errored` is `main` returning the `peer_addr` error through `?`;
      `Panicked` is the `panic!` on an accept failure or the failed `expect` on
      shutdown. */
  datatype Phase = Polling | Stopped | Panicked | Errored

  /** What the loop does to a client, in order. */
  datatype Effect = Write(bytes: seq<byte>) | Hold(millis: nat) | ShutdownBoth

  datatype Loop = Loop(phase: Phase, effects: seq<Effect>, served: nat)

  const Start: Loop := Loop(Polling, [], 0)

  /** One serve cycle: the response, the hold, the shutdown of both directions. */
  function Cycle(response: seq<byte>): seq<Effect> {
    [Write(response), Hold(HoldMillis), ShutdownBoth]
  }

  /** `n` serve cycles of the same response. */
  function Cycles(response: seq<byte>, n: nat): (r: seq<Effect>)
    ensures |r| == 3 * n
  {
    if n == 0 then [] else Cycles(response, n - 1) + Cycle(response)
  }

  /** One pass of the loop body. A loop that has left `Polling` does nothing
      more; a pass serves at most one client, and only by appending whole
      cycles of the one response. */
  function Step(s: Loop, ev: Event, response: seq<byte>): (r: Loop)
    ensures r.phase == Polling ==> s.phase == Polling
    ensures s.served <= r.served <= s.served + 1
    ensures r.effects == s.effects + Cycles(response, r.served - s.served)
  {
    if s.phase != Polling then s
    else
      match ev.accept
      case Failure => s.(phase := Panicked)
      case WouldBlock => if ev.running then s else s.(phase := Stopped)
      case Connection(peerKnown, shutdownOk) =>
        if !peerKnown then s.(phase := Errored)
        else
          var served := Loop(Polling, s.effects + Cycle(response), s.served + 1);
          if !shutdownOk then served.(phase := Panicked)
          else if ev.running then served
          else served.(phase := Stopped)
  }

  /** The loop after the events of `trace`, taken from `s`. */
  function RunFrom(s: Loop, trace: seq<Event>, response: seq<byte>): Loop
    decreases |trace|
  {
    if |trace| == 0 then s
    else Step(RunFrom(s, trace[..|trace| - 1], response), trace[|trace| - 1], response)
  }

  /** The loop after the events of `trace`, taken from the start. */
  function Run(trace: seq<Event>, response: seq<byte>): Loop {
    RunFrom(Start, trace, response)
  }

  /** An event after which the loop polls again: a would-block, or a completed
      serve, with `running` still true. */
  predicate Continues(ev: Event) {
    ev.running && (ev.accept.WouldBlock? || ev.accept == Connection(true, true))
  }

  /** Where an event that does not continue leaves the loop. */
  function Verdict(ev: Event): Phase {
    match ev.accept
    case Failure => Panicked
    case WouldBlock => if ev.running then Polling else Stopped
    case Connection(peerKnown, shutdownOk) =>
      if !peerKnown then Errored
      else if !shutdownOk then Panicked
      else if ev.running then Polling
      else Stopped
  }

  /** Whether the event writes the response to a client. */
  function Serves(ev: Event): nat {
    if ev.accept.Connection? && ev.accept.peerKnown then 1 else 0
  }

  function ServedIn(trace: seq<Event>): nat
    decreases |trace|
  {
    if |trace| == 0 then 0 else ServedIn(trace[..|trace| - 1]) + Serves(trace[|trace| - 1])
  }

  /** The effects are always whole serve cycles, one per served client, each
      with the same response. */
  lemma {:induction false} EffectsAreCycles(trace: seq<Event>, response: seq<byte>)
    ensures Run(trace, response).effects == Cycles(response, Run(trace, response).served)
    decreases |trace|
  {
    if |trace| > 0 {
      EffectsAreCycles(trace[..|trace| - 1], response);
    }
  }

  lemma {:induction false} CyclesWriteOnly(response: seq<byte>, n: nat)
    ensures var c := Cycles(response, n);
      forall i :: 0 <= i < |c| && c[i].Write? ==> c[i].bytes == response
  {
    if n > 0 {
      CyclesWriteOnly(response, n - 1);
      var c := Cycles(response, n);
      assert forall i :: 0 <= i < |c| - 3 ==> c[i] == Cycles(response, n - 1)[i];
    }
  }

  /** Every client receives the same bytes: each write in a run is the response. */
  lemma SameResponseToEveryClient(trace: seq<Event>, response: seq<byte>)
    ensures var effects := Run(trace, response).effects;
      forall i :: 0 <= i < |effects| && effects[i].Write? ==> effects[i].bytes == response
  {
    EffectsAreCycles(trace, response);
    CyclesWriteOnly(response, Run(trace, response).served);
  }

  /** Once the loop has left `Polling`, later events change nothing. */
  lemma {:induction false} Absorbing(prefix: seq<Event>, rest: seq<Event>, response: seq<byte>)
    requires Run(prefix, response).phase != Polling
    ensures Run(prefix + rest, response) == Run(prefix, response)
    decreases |rest|
  {
    if |rest| == 0 {
      assert prefix + rest == prefix;
    } else {
      var all := prefix + rest;
      assert all[..|all| - 1] == prefix + rest[..|rest| - 1];
      Absorbing(prefix, rest[..|rest| - 1], response);
    }
  }

  /** The outcome of a run is decided by its first event that does not
      continue: before it the loop polls with one cycle per served client; at
      it the loop ends in that event's verdict; after it nothing happens. */
  lemma {:induction false} RunDecidedByFirstStop(trace: seq<Event>, k: nat, response: seq<byte>)
    requires k <= |trace|
    requires forall j :: 0 <= j < k ==> Continues(trace[j])
    requires k < |trace| ==> !Continues(trace[k])
    ensures k == |trace| ==> Run(trace, response).phase == Polling
    ensures k < |trace| ==> Run(trace, response).phase == Verdict(trace[k])
    ensures Run(trace, response).served == ServedIn(trace[..if k < |trace| then k + 1 else k])
    decreases |trace|
  {
    if |trace| > 0 {
      var init := trace[..|trace| - 1];
      if k == |trace| {
        RunDecidedByFirstStop(init, k - 1, response);
        assert init[..k - 1] == init;
        assert trace[..k] == trace;
        assert Continues(trace[k - 1]);
      } else if k == |trace| - 1 {
        RunDecidedByFirstStop(init, k, response);
        assert init[..k] == init;
        assert trace[..k + 1] == trace;
      } else {
        RunDecidedByFirstStop(init, k, response);
        assert init[..k + 1] == trace[..k + 1];
      }
    }
  }

  /** Running two traces one after the other is running their concatenation. */
  lemma {:induction false} RunFromAppend(s: Loop, p: seq<Event>, q: seq<Event>, response: seq<byte>)
    ensures RunFrom(s, p + q, response) == RunFrom(RunFrom(s, p, response), q, response)
    decreases |q|
  {
    if |q| == 0 {
      assert p + q == p;
    } else {
      assert (p + q)[..|p + q| - 1] == p + q[..|q| - 1];
      RunFromAppend(s, p, q[..|q| - 1], response);
    }
  }

  /** A would-block while `running` is true leaves the loop exactly as it was:
      inserted anywhere into a trace it changes nothing, so it never ends the
      loop. */
  lemma WouldBlockWhileRunningIsInvisible(p: seq<Event>, q: seq<Event>, response: seq<byte>)
    ensures Run(p + [Event(WouldBlock, true)] + q, response) == Run(p + q, response)
  {
    var idle := Event(WouldBlock, true);
    RunFromAppend(Start, p + [idle], q, response);
    RunFromAppend(Start, p, [idle], response);
    RunFromAppend(Start, p, q, response);
    assert [idle][..0] == [];
  }

  /** A loop that only ever sees would-block while running keeps polling and
      does nothing. */
  lemma {:induction false} IdleKeepsPolling(trace: seq<Event>, response: seq<byte>)
    requires forall j :: 0 <= j < |trace| ==> trace[j] == Event(WouldBlock, true)
    ensures Run(trace, response) == Start
    decreases |trace|
  {
    if |trace| > 0 {
      IdleKeepsPolling(trace[..|trace| - 1], response);
    }
  }

  /** A completed serve while `running` is true appends one cycle and keeps
      the loop polling. */
  lemma ServeWhileRunning(p: seq<Event>, response: seq<byte>)
    requires Run(p, response).phase == Polling
    ensures var before := Run(p, response);
      Run(p + [Event(Connection(true, true), true)], response)
        == Loop(Polling, before.effects + Cycle(response), before.served + 1)
  {
    assert (p + [Event(Connection(true, true), true)])[..|p|] == p;
  }

  /** At a loop boundary, after a would-block or a completed serve, a false
      `running` stops the loop, and no later event serves anyone. */
  lemma StopsAtBoundary(p: seq<Event>, ev: Event, rest: seq<Event>, response: seq<byte>)
    requires Run(p, response).phase == Polling
    requires ev.accept == WouldBlock || ev.accept == Connection(true, true)
    requires !ev.running
    ensures Run(p + [ev], response).phase == Stopped
    ensures Run(p + [ev] + rest, response) == Run(p + [ev], response)
    ensures Run(p + [ev], response).served == Run(p, response).served + Serves(ev)
  {
    assert (p + [ev])[..|p|] == p;
    Absorbing(p + [ev], rest, response);
  }

  /** An accept error other than would-block panics at once: nothing is served
      for it, the loop does not stop normally, and it stays panicked. */
  lemma FailurePanics(p: seq<Event>, ev: Event, rest: seq<Event>, response: seq<byte>)
    requires Run(p, response).phase == Polling
    requires ev.accept == Failure
    ensures Run(p + [ev] + rest, response) == Run(p, response).(phase := Panicked)
  {
    assert (p + [ev])[..|p|] == p;
    Absorbing(p + [ev], rest, response);
  }

  /** Once the signal has been delivered, so that every boundary from event `k`
      on reads `running` as false, at most one more client is served, and none
      at all while the loop is still polling. */
  lemma {:induction false} AtMostOneServeAfterSignal(trace: seq<Event>, k: nat, response: seq<byte>)
    requires k <= |trace|
    requires forall j :: k <= j < |trace| ==> !trace[j].running
    ensures Run(trace, response).served <= Run(trace[..k], response).served + 1
    ensures Run(trace, response).phase == Polling
      ==> Run(trace, response).served == Run(trace[..k], response).served
    decreases |trace|
  {
    if |trace| == k {
      assert trace[..k] == trace;
    } else {
      var init := trace[..|trace| - 1];
      assert init[..k] == trace[..k];
      AtMostOneServeAfterSignal(init, k, response);
    }
  }

  /** The loop of `main` written as a loop: poll, serve or not, then read the
      flag and break. Returns the final loop and the number of events it
      consumed; events after a break are never looked at. */
  method Serve(trace: seq<Event>, response: seq<byte>) returns (result: Loop, consumed: nat)
    ensures result == Run(trace, response)
    ensures consumed <= |trace| && result == Run(trace[..consumed], response)
    ensures result.phase == Polling ==> consumed == |trace|
    ensures result.phase != Polling ==> consumed > 0 && Run(trace[..consumed - 1], response).phase == Polling
  {
    var phase := Polling;
    var effects: seq<Effect> := [];
    var served := 0;
    var i := 0;
    while i < |trace| && phase == Polling
      invariant 0 <= i <= |trace|
      invariant Run(trace[..i], response) == Loop(phase, effects, served)
      invariant phase != Polling ==> i > 0 && Run(trace[..i - 1], response).phase == Polling
      decreases |trace| - i
    {
      var ev := trace[i];
      assert trace[..i + 1][..i] == trace[..i];
      match ev.accept {
        case Connection(peerKnown, shutdownOk) =>
          if !peerKnown {
            phase := Errored;
          } else {
            effects := effects + [Write(response)];
            effects := effects + [Hold(HoldMillis)];
            effects := effects + [ShutdownBoth];
            served := served + 1;
            if !shutdownOk {
              phase := Panicked;
            } else if !ev.running {
              phase := Stopped;
            }
          }
        case WouldBlock =>
          if !ev.running {
            phase := Stopped;
          }
        case Failure =>
          phase := Panicked;
      }
      i := i + 1;
    }
    result := Loop(phase, effects, served);
    consumed := i;
    if phase != Polling {
      Absorbing(trace[..i], trace[i..], response);
      assert trace[..i] + trace[i..] == trace;
    } else {
      assert trace[..i] == trace;
    }
  }
}
