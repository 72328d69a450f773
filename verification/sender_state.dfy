/** The sending side as a value, and what sending, submitting and timeouts do to it. */
module SenderState {
  import opened Bits
  import opened HandshakeFormat
  import opened RecordWriter
  import opened RetransmitTimer
  import opened Flight
  import opened FlightPass
  import Transport

  datatype SendResult = FlightSent | Blocked | SealFailure | ShutDown

  /** What is not up to the sender: whether the AEAD fails on the piece at a cursor, whether the transport
      accepts the datagram that begins there, and whether flushing succeeds. */
  datatype Outside = Outside(fails: Cursor -> bool, accepts: Cursor -> bool, flushes: bool)

  /** The AEAD works throughout. */
  ghost predicate Reliable(outside: Outside) { forall c :: !outside.fails(c) }

  /** The transport takes everything. */
  ghost predicate Accepting(outside: Outside) { outside.flushes && forall c :: outside.accepts(c) }

  predicate AllAccepted(more: seq<Attempt>) { forall k :: 0 <= k < |more| ==> more[k].result.Accepted? }

  /** How a call ends after some attempts: all were accepted up to the last, which the result tells. */
  predicate Ended(r: SendResult, more: seq<Attempt>) {
    match r
    case FlightSent => AllAccepted(more)
    case ShutDown => more == []
    case Blocked => AllAccepted(more) || (AllAccepted(more[..|more| - 1]) && more[|more| - 1].result.Refused?)
    case SealFailure => more != [] && AllAccepted(more[..|more| - 1]) && more[|more| - 1].result.SealFailed?
  }

  /** How sending n messages ends: at the end of the flight, with the result of flushing; where the transport refused
      a datagram; or where a sealing failed.  Nothing is done after the connection was shut down. */
  ghost predicate SendEnds(r: SendResult, more: seq<Attempt>, shutDown: bool, outside: Outside, at: Cursor, n: nat) {
    && Ended(r, more) && (r.ShutDown? <==> shutDown)
    && (!shutDown && AllAccepted(more) ==> at == Cursor(n, 0) && r == if outside.flushes then FlightSent else Blocked)
    && (r.Blocked? && !AllAccepted(more) ==> !outside.accepts(at))
  }

  /** Sending goes on after an accepted datagram, and ends with any other. */
  lemma {:induction false} AnotherAttempt(more: seq<Attempt>, a: Attempt, r: SendResult, outside: Outside, at: Cursor, n: nat)
    requires AllAccepted(more) && (r.Blocked? ==> !outside.accepts(at)) && !r.ShutDown?
    requires a.result == match r case FlightSent => Accepted case Blocked => Refused case _ => SealFailed
    ensures r.FlightSent? ==> AllAccepted(more + [a])
    ensures NothingDropped(more) && !r.SealFailure? ==> NothingDropped(more + [a])
    ensures !r.FlightSent? ==> SendEnds(r, more + [a], false, outside, at, n)
  {
    var all := more + [a];
    assert all[..|all| - 1] == more && all[|all| - 1] == a;
  }

  lemma {:induction false} FlightEnds(more: seq<Attempt>, outside: Outside, at: Cursor, n: nat)
    requires AllAccepted(more) && at == Cursor(n, 0)
    ensures SendEnds(if outside.flushes then FlightSent else Blocked, more, false, outside, at, n)
  {
  }

  lemma {:induction false} NothingSent(outside: Outside, at: Cursor, n: nat)
    ensures AllAccepted([]) && NothingDropped([]) && SendEnds(ShutDown, [], true, outside, at, n)
  {
  }

  lemma {:induction false} CleanMore(attempts: seq<Attempt>, more: seq<Attempt>)
    ensures NothingDropped(attempts + more) <==> NothingDropped(attempts) && NothingDropped(more)
  {
    var all := attempts + more;
    if NothingDropped(all) {
      forall k | 0 <= k < |attempts| ensures !Dropping(attempts[k]) { assert all[k] == attempts[k]; }
      forall k | 0 <= k < |more| ensures !Dropping(more[k]) { assert all[|attempts| + k] == more[k]; }
    }
  }

  /** The MTU after it was looked at: one below the minimum is replaced by what the transport offers. */
  function NextMtu(mtu: nat, queryMtu: bool, offered: int): nat {
    if mtu >= MIN_MTU || !queryMtu then mtu
    else if MIN_MTU <= offered <= 0x4000_0000 then offered else DEFAULT_MTU
  }

  // ----- the state

  /** What was submitted and hashed, the flight and how far it is sent, the datagrams of this pass and all that were
      accepted, the write keys of all epochs, the timer, and the MTU. */
  datatype WriteSide = WriteSide(sent: seq<Transport.Sent>, counted: seq<bool>, transcript: seq<byte>, writeSeq: nat,
                                 flight: seq<Outgoing>, at: Cursor, complete: bool, hasReply: bool,
                                 attempts: seq<Attempt>, network: seq<seq<SealedPiece>>,
                                 epoch: nat, keyring: seq<SealKeys>, clock: Clock, initialMs: nat, mtu: nat)

  /** An empty flight, and a timer at rest. */
  function Dropped(w: WriteSide): WriteSide {
    w.(flight := [], at := Cursor(0, 0), complete := false, hasReply := false, attempts := [])
  }

  function Stopped(w: WriteSide): WriteSide { w.(clock := Clock(NEVER, w.initialMs, 0)) }

  /** A flight that was sent is dropped when the next one begins. */
  function Begun(w: WriteSide): WriteSide { if w.complete then Stopped(Dropped(w)) else w }

  /** A message or a ChangeCipherSpec is added to the flight, which takes seven. */
  function Added(w: WriteSide, m: Outgoing): WriteSide {
    if |w.flight| < 7 then w.(flight := w.flight + [m]) else w
  }

  /** The message goes into the flight, history and numbering, and into the transcript while there is a handshake,
      if its length fits 24 bits and the flight has room. */
  function MessageAdded(w: WriteSide, kind: byte, body: seq<byte>, inHandshake: bool): WriteSide {
    if |body| >= 0x100_0000 then w
    else
      var data, begun := FragmentBytes(Fragment(kind, |body|, w.writeSeq, 0, body)), Begun(w);
      if |begun.flight| >= 7 then begun
      else
        Added(begun, Outgoing(data, w.epoch, false)).(
          sent := w.sent + [Transport.Sent(kind, body)], counted := w.counted + [inHandshake],
          transcript := w.transcript + if inHandshake then data else [], writeSeq := (w.writeSeq + 1) % 0x1_0000)
  }

  /** The handshake is over: a flight that had a reply is dropped. */
  function Finished(w: WriteSide): WriteSide { Stopped(if w.hasReply then Dropped(w) else w) }

  /** What is left of the flight is sent: datagrams tried, the accepted ones on the network, and how it ended. */
  ghost predicate SentOn(w: WriteSide, r: SendResult, more: seq<Attempt>, shutDown: bool, queryMtu: bool, offered: int,
                         outside: Outside, w': WriteSide) {
    && w' == w.(at := w'.at, attempts := w.attempts + more, network := w.network + Datagrams(more),
                mtu := NextMtu(w.mtu, queryMtu && !shutDown, offered))
    && SendEnds(r, more, shutDown, outside, w'.at, |w.flight|)
  }

  /** With a transport that takes everything, a flight no sealing of which fails is sent to its end, and flushed. */
  lemma {:induction false} AllSent(w: WriteSide, r: SendResult, more: seq<Attempt>, queryMtu: bool, offered: int,
                                   outside: Outside, w': WriteSide)
    requires SentOn(w, r, more, false, queryMtu, offered, outside, w') && Accepting(outside) && !r.SealFailure?
    ensures r.FlightSent? && AllAccepted(more) && w'.at == Cursor(|w.flight|, 0)
  {
    hide AllAccepted;
  }

  /** The flight is complete, and its timer armed. */
  function Flushing(w: WriteSide, now: Time): WriteSide { w.(complete := true, clock := Armed(w.initialMs, w.clock, now)) }

  /** A timeout is counted; after two, the transport may have a smaller MTU to fall back on. */
  function Handling(w: WriteSide, now: Time, queryMtu: bool, fallback: int): WriteSide {
    var clock := Handled(w.initialMs, w.clock, now);
    w.(clock := clock,
       mtu := if Expired(w.clock, now) && clock.count > 2 && queryMtu && 228 <= fallback <= 1073741824 then fallback else w.mtu)
  }

  /** Back to the start of the flight. */
  function Rewound(w: WriteSide): WriteSide { w.(at := Cursor(0, 0), attempts := []) }
}
