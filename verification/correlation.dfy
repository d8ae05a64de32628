/**
 * The request/reply correlation of the scheduler's `SendPacket`
 * (src/udp/scheduler.go:407-438), made sequential: what happens during the
 * wait after each transmission is an event, either the timeout firing or
 * an entry arriving from the dispatcher with the milliseconds elapsed since
 * that transmission. Events beyond the end of the list are timeouts.
 *
 * At most three transmissions; a reply whose id matches ends the exchange
 * and records the round-trip time on the destination's entry; a reply with
 * another id is only logged, and the next attempt keeps the same timeout;
 * a timeout doubles it (1, 2, then 4 seconds).
 */
module Correlation {
  import opened Wrappers
  import opened Primitives
  import opened WireTypes
  import opened PeerRegistry
  import opened Dispatch

  const MaxAttempts: nat := 3

  datatype Event = Timeout | Arrival(entry: Entry, elapsedMillis: int)

  datatype SendError = NoResponse | Crash(panic: Panic)

  /** The matching reply and the registry with the round-trip time recorded. */
  datatype Exchange = Exchange(response: Entry, registry: Registry)

  function EventAt(events: seq<Event>, i: nat): Event
  {
    if i < |events| then events[i] else Timeout
  }

  predicate Answers(e: Event, id: uint32)
  {
    e.Arrival? && e.entry.packet.id == id
  }

  /** Number of timeouts among the waits before attempt n. */
  function TimeoutsBefore(events: seq<Event>, n: nat): nat
  {
    if n == 0 then 0
    else TimeoutsBefore(events, n - 1) + (if EventAt(events, n - 1).Timeout? then 1 else 0)
  }

  function Pow2(n: nat): (r: nat)
    ensures r >= 1
  {
    if n == 0 then 1 else 2 * Pow2(n - 1)
  }

  /**
   * `waits[i]` is the timeout in seconds of the wait after transmission i.
   * The result is the first answer among the first three waits, or a crash
   * when the destination has no entry to record the round-trip time on.
   */
  method SendPacket(message: Message, dest: Addr, reg: Registry, events: seq<Event>)
    returns (r: Result<Exchange, SendError>, waits: seq<nat>)
    ensures 1 <= |waits| <= MaxAttempts
    ensures forall i :: 0 <= i < |waits| ==> waits[i] == Pow2(TimeoutsBefore(events, i))
    // the attempts before the last one went unanswered
    ensures forall j :: 0 <= j < |waits| - 1 ==> !Answers(EventAt(events, j), message.id)
    ensures r == Failure(NoResponse) <==> forall j :: 0 <= j < MaxAttempts ==> !Answers(EventAt(events, j), message.id)
    ensures r == Failure(NoResponse) ==> |waits| == MaxAttempts
    ensures r.Success? || r.error.Crash? ==> Answers(EventAt(events, |waits| - 1), message.id)
    ensures r.Failure? && r.error.Crash? <==> r != Failure(NoResponse) && dest !in reg
    ensures r.Success? ==>
              var e := EventAt(events, |waits| - 1);
              && dest in reg
              && r.value.response == e.entry
              && r.value.registry == reg[dest := reg[dest].(rttMillis := e.elapsedMillis)]
  {
    var timeout: nat := 1;
    var i: nat := 0;
    waits := [];
    while i < MaxAttempts
      invariant i <= MaxAttempts && |waits| == i
      invariant timeout == Pow2(TimeoutsBefore(events, i))
      invariant forall k :: 0 <= k < i ==> waits[k] == Pow2(TimeoutsBefore(events, k))
      invariant forall j :: 0 <= j < i ==> !Answers(EventAt(events, j), message.id)
    {
      // the transmission itself is the socket's business
      waits := waits + [timeout];
      var e := EventAt(events, i);
      if e.Arrival? {
        if e.entry.packet.id == message.id {
          if dest !in reg {
            r := Failure(Crash(NilDereference));
          } else {
            r := Success(Exchange(e.entry, reg[dest := reg[dest].(rttMillis := e.elapsedMillis)]));
          }
          return;
        }
      } else {
        timeout := timeout * 2;
      }
      i := i + 1;
    }
    r := Failure(NoResponse);
  }

  /** With no reply at all, the waits are 1, 2 and 4 seconds. */
  lemma {:induction false} SilentPeerWaits(events: seq<Event>)
    requires forall j :: 0 <= j < |events| ==> events[j].Timeout?
    ensures [Pow2(TimeoutsBefore(events, 0)), Pow2(TimeoutsBefore(events, 1)), Pow2(TimeoutsBefore(events, 2))] == [1, 2, 4]
  {
    assert EventAt(events, 0).Timeout? && EventAt(events, 1).Timeout?;
    assert TimeoutsBefore(events, 1) == 1;
    assert TimeoutsBefore(events, 2) == 2;
    assert Pow2(2) == 4;
  }

  /** A reply with another id does not lengthen the next wait. */
  lemma MismatchKeepsTimeout(events: seq<Event>, i: nat, id: uint32)
    requires EventAt(events, i).Arrival? && !Answers(EventAt(events, i), id)
    ensures Pow2(TimeoutsBefore(events, i + 1)) == Pow2(TimeoutsBefore(events, i))
  {
  }
}
