/** One endpoint of the handshake as a value, and what each of its steps does to it. */
module Endpoint {
  import opened Bits
  import opened HandshakeFormat
  import opened RetransmitTimer
  import opened SenderState
  import Flight
  import RecordReader
  import RecordWriter
  import RecordDelivery
  import HandshakeReceiver
  import Transport

  /** The receiving side: ring, replay window, read keys, whether the peer has closed, and what was processed. */
  datatype ReadSide = ReadSide(rx: HandshakeReceiver.Rx, recorded: set<nat>, keys: RecordReader.Keys, closed: bool,
                               delivered: seq<HandshakeReceiver.Message>)

  datatype State = State(reading: ReadSide, writing: WriteSide)

  datatype Step =
    | SubmitMessage(kind: byte, body: seq<byte>)
    | SubmitChangeCipherSpec
    | Flush(now: Time, shutDown: bool, queryMtu: bool, offered: int, outside: Outside)
    | Timeout(now: Time, fallback: int, shutDown: bool, queryMtu: bool, offered: int, outside: Outside)
    | Finish
    | NewWriteKeys(write: RecordWriter.SealKeys)
    | OpenHandshake(datagram: seq<byte>, maxLen: nat)
    | OpenChangeCipherSpec(datagram: seq<byte>, maxLen: nat)
    | GetMessage
    | NextMessage
    | NewReadKeys(read: RecordReader.Keys)

  function Begin(read: RecordReader.Keys, write: RecordWriter.SealKeys, initialMs: nat, mtu: nat): State {
    State(ReadSide(HandshakeReceiver.Start(), {}, read, false, []),
          WriteSide([], [], [], 0, [], Flight.Cursor(0, 0), false, false, [], [], 0, [write], Clock(NEVER, 0, 0), initialMs, mtu))
  }

  // ----- sending

  ghost predicate Flushed(w: WriteSide, t: Step, w': WriteSide)
    requires t.Flush?
  {
    exists r, more :: SentOn(Flushing(w, t.now), r, more, t.shutDown, t.queryMtu, t.offered, t.outside, w')
  }

  ghost predicate TimedOut(w: WriteSide, t: Step, w': WriteSide)
    requires t.Timeout?
  {
    var counted := Handling(w, t.now, t.queryMtu, t.fallback);
    if Retransmits(w.clock, t.now) then
      exists r, more :: SentOn(Rewound(counted), r, more, t.shutDown, t.queryMtu, t.offered, t.outside, w')
    else w' == counted
  }

  // ----- receiving

  /** The record at the front of a datagram is opened and handed to the ring. */
  ghost function Opened(r: ReadSide, s: seq<byte>, maxLen: nat): ReadSide
    requires |r.rx.slots| == HandshakeReceiver.FLIGHT
  {
    if r.closed || s == [] then r
    else
      var n := RecordDelivery.OpenNext(r.keys, RecordDelivery.Reading(r.recorded, r.rx, false), s, maxLen);
      r.(recorded := n.recorded, rx := n.rx)
  }

  /** The same, and a ChangeCipherSpec is taken if the record was handled; one that was flagged needs no record. */
  ghost function OpenedForCcs(r: ReadSide, s: seq<byte>, maxLen: nat): ReadSide
    requires |r.rx.slots| == HandshakeReceiver.FLIGHT
  {
    if r.rx.hasCcs then r.(rx := r.rx.(hasCcs := false))
    else if r.closed || s == [] then r
    else
      match RecordReader.Judge(r.rx.epoch, r.keys, r.recorded, s)
      case Drop => r
      case Overflow => r
      case Accept(n, kind, body) =>
        if kind == RecordReader.RT_ALERT then r.(recorded := r.recorded + {n})
        else
          r.(recorded := r.recorded + {n},
             rx := HandshakeReceiver.OpenChangeCipherSpec(r.rx, kind, body, r.keys.nullCipher, maxLen).0)
  }

  function Got(r: ReadSide): ReadSide
    requires |r.rx.slots| == HandshakeReceiver.FLIGHT
  {
    r.(rx := HandshakeReceiver.StepRx(r.rx, HandshakeReceiver.Get))
  }

  function Advanced(r: ReadSide): ReadSide
    requires |r.rx.slots| == HandshakeReceiver.FLIGHT
  {
    r.(rx := HandshakeReceiver.StepRx(r.rx, HandshakeReceiver.Next),
       delivered := r.delivered + Transport.Processed(r.rx, HandshakeReceiver.Next))
  }

  function Rekeyed(r: ReadSide, next: RecordReader.Keys): ReadSide {
    match HandshakeReceiver.SetReadState(r.rx)
    case None => r
    case Some(rx) => r.(rx := rx, keys := next, recorded := {})
  }

  // ----- steps

  predicate Sends(t: Step) {
    t.SubmitMessage? || t.SubmitChangeCipherSpec? || t.Flush? || t.Timeout? || t.Finish? || t.NewWriteKeys?
  }

  /** What the step does to the sending side. */
  ghost predicate Written(w: WriteSide, t: Step, w': WriteSide)
    requires Sends(t)
  {
    match t
    case SubmitMessage(kind, body) => w' == MessageAdded(w, kind, body, true)
    case SubmitChangeCipherSpec => w' == Added(Begun(w), Flight.Outgoing([], w.epoch, true))
    case Flush(_, _, _, _, _) => Flushed(w, t, w')
    case Timeout(_, _, _, _, _, _) => TimedOut(w, t, w')
    case Finish => w' == Finished(w)
    case NewWriteKeys(next) => w' == w.(epoch := (w.epoch + 1) % 65536, keyring := w.keyring + [next])
  }

  /** What it does to the receiving side. */
  ghost function Read(r: ReadSide, t: Step): ReadSide
    requires |r.rx.slots| == HandshakeReceiver.FLIGHT && !Sends(t)
  {
    match t
    case OpenHandshake(s, maxLen) => Opened(r, s, maxLen)
    case OpenChangeCipherSpec(s, maxLen) => OpenedForCcs(r, s, maxLen)
    case GetMessage => Got(r)
    case NextMessage => Advanced(r)
    case NewReadKeys(next) => Rekeyed(r, next)
  }

  /** e' is e after the step.  A flight that was sent has a reply once the handshake is done with a message. */
  ghost predicate After(e: State, t: Step, e': State) {
    if Sends(t) then e'.reading == e.reading && Written(e.writing, t, e'.writing)
    else
      && |e.reading.rx.slots| == HandshakeReceiver.FLIGHT && e'.reading == Read(e.reading, t)
      && e'.writing == if t.NextMessage? && e.reading.rx.hasMessage then e.writing.(hasReply := e.writing.hasReply || e.writing.complete)
                       else e.writing
  }

  /** Clocks are normal, and new keys are those of an AEAD. */
  ghost predicate Proper(t: Step) {
    match t
    case Flush(now, _, _, _, _) => Normal(now)
    case Timeout(now, _, _, _, _, _) => Normal(now)
    case NewWriteKeys(next) => RecordWriter.Bounded(next)
    case _ => true
  }

  /** Only submitting adds to what was submitted: the message, or nothing. */
  lemma {:induction false} SentAfter(e: State, t: Step, e': State)
    requires After(e, t, e')
    ensures t.SubmitMessage? && e'.writing.sent != e.writing.sent ==>
              && e'.writing.sent == e.writing.sent + [Transport.Sent(t.kind, t.body)]
              && e'.writing.counted == e.writing.counted + [true]
    ensures !t.SubmitMessage? || e'.writing.sent == e.writing.sent ==>
              e'.writing.sent == e.writing.sent && e'.writing.counted == e.writing.counted
  {
    if t.SubmitMessage? { assert e.writing.sent + [Transport.Sent(t.kind, t.body)] != e.writing.sent; }
    hide FragmentBytes;
  }
}
