/** Two endpoints and the network between them, over every run. */
module Session {
  import opened Bits
  import opened HandshakeFormat
  import HandshakeReceiver
  import RecordReader
  import RecordWriter
  import opened SenderHistory
  import opened FlightSender
  import opened Transport
  import opened Authenticity
  import opened Connection
  import opened Endpoint

  /** Both connections are in order, and share nothing. */
  ghost predicate Apart(x: Connection, y: Connection)
    reads x, y, x.Repr, y.Repr
  {
    x.Valid() && y.Valid() && x.Repr !! y.Repr
  }

  /** A receiver holds and has delivered only what was sent, all of it in the handshake. */
  ghost predicate Way(honest: bool, sent: seq<Sent>, counted: seq<bool>, rx: HandshakeReceiver.Rx,
                      delivered: seq<HandshakeReceiver.Message>) {
    honest && Transport.Follows(sent, rx, delivered) && forall i :: 0 <= i < |counted| ==> counted[i]
  }

  /** That of y, and what x has sent. */
  ghost predicate OneWay(x: Connection, y: Connection)
    reads x.sender, y, y.ring
  {
    Way(x.sender.honest, x.sender.sent, x.sender.counted, y.ring.rx, y.delivered)
  }

  ghost predicate Linked(x: Connection, y: Connection)
    reads x.sender, y.sender, x, y, x.ring, y.ring
  {
    OneWay(x, y) && OneWay(y, x)
  }

  lemma {:induction false} WayMore(sent: seq<Sent>, counted: seq<bool>, rx: HandshakeReceiver.Rx,
                                   delivered: seq<HandshakeReceiver.Message>, m: Sent)
    requires Way(true, sent, counted, rx, delivered) && Numbered(sent + [m])
    ensures Way(true, sent + [m], counted + [true], rx, delivered)
  {
    hide Numbered;
    FollowsMore(sent, rx, delivered, m);
    hide Transport.Follows;
  }

  lemma {:induction false} WayGoes(honest: bool, sent: seq<Sent>, counted: seq<bool>, rx: HandshakeReceiver.Rx,
                                   delivered: seq<HandshakeReceiver.Message>)
    ensures Way(honest, sent, counted, rx, delivered) ==>
              && honest && Transport.Follows(sent, rx, delivered) && |sent| < TWO_16
              && forall rx', delivered' :: Transport.Follows(sent, rx', delivered') ==> Way(true, sent, counted, rx', delivered')
  {
    assert Transport.Follows(sent, rx, delivered) ==> |sent| < TWO_16;
    hide Transport.Follows;
  }

  lemma {:induction false} Parts(x: Connection)
    requires x.Valid()
    ensures {x, x.ring, x.ring.incoming, x.reader, x.reader.window, x.sender, x.sender.timer} <= x.Repr
    ensures x.ReadRepr() <= x.Repr && x.sender.writer.Repr() <= x.Repr && x.ring.Repr <= x.Repr
    ensures {x.sender.writer, x.sender.writer.writeSequence, x.sender.writer.lastWriteSequence} <= x.Repr
    ensures x.sender !in x.ReadRepr() + {x, x.ring, x.ring.incoming} && {x, x.ring} !! {x.sender.timer} + x.sender.writer.Repr()
    ensures x.reader.Valid() && x.sender.Valid() && x.ring.hasMessage == x.ring.rx.hasMessage
    ensures |x.ring.rx.slots| == HandshakeReceiver.FLIGHT && x.ring.rx.epoch == x.reader.epoch
  {
    RingState(x.ring);
  }

  // ----- steps

  /** What the results ask of a step, in the states it finds: sequence numbers are not used up, the epoch does not
      wrap, and no datagram is forged. */
  ghost predicate Regular(e: State, peer: State, t: Step) {
    match t
    case SubmitMessage(kind, body) => Numbered(e.writing.sent + [Sent(kind, body)])
    case NewWriteKeys(_) => |e.writing.keyring| < 65536
    case OpenHandshake(s, _) => Genuinely(e, peer, s)
    case OpenChangeCipherSpec(s, _) => Genuinely(e, peer, s)
    case _ => true
  }

  ghost predicate Genuinely(e: State, peer: State, s: seq<byte>) {
    Authentic(peer.writing.network, peer.writing.keyring, e.reading.rx.epoch, e.reading.keys, s)
  }

  lemma {:induction false} ViewOf(x: Connection)
    ensures x.View().writing.sent == x.sender.sent && x.View().writing.counted == x.sender.counted
    ensures x.View().writing.network == x.sender.network && x.View().writing.keyring == x.sender.keyring
    ensures x.View().writing.transcript == x.sender.transcript
    ensures x.View().reading.rx == x.ring.rx && x.View().reading.delivered == x.delivered && x.View().reading.keys == x.reader.keys
  {
  }

  /** A datagram that is not forged holds a handshake record only if y has sent it, and x follows y. */
  lemma {:induction false} PeerRecord(x: Connection, y: Connection, t: Step)
    requires Apart(x, y) && Linked(x, y) && Regular(x.View(), y.View(), t)
    ensures x.reader.Valid() && x.FollowsOn(t, y.sender.sent)
  {
    Parts(x);
    Parts(y);
    ViewOf(x);
    ViewOf(y);
    hide Connection.Valid, Connection.View, Sender.Valid, RecordReader.Reader.Valid, Way, Transport.Follows, Authentic, Connection.FromPeer,
         Connection.Verdict;
    WayGoes(y.sender.honest, y.sender.sent, y.sender.counted, x.ring.rx, x.delivered);
    if t.OpenHandshake? || t.OpenChangeCipherSpec? { x.AuthenticFromPeer(y.sender, t.datagram); }
  }

  /** What x has sent, after a regular step: y still follows it, and all of it is counted. */
  lemma {:induction false} WayAfter(e: State, p: State, t: Step, e': State, honest: bool)
    requires After(e, t, e') && Regular(e, p, t)
    requires Way(honest, e.writing.sent, e.writing.counted, p.reading.rx, p.reading.delivered)
    ensures Way(honest, e'.writing.sent, e'.writing.counted, p.reading.rx, p.reading.delivered)
  {
    SentAfter(e, t, e');
    hide After, Way, Numbered;
    WayGoes(honest, e.writing.sent, e.writing.counted, p.reading.rx, p.reading.delivered);
    if t.SubmitMessage? && e'.writing.sent != e.writing.sent {
      WayMore(e.writing.sent, e.writing.counted, p.reading.rx, p.reading.delivered, Sent(t.kind, t.body));
    }
  }

  /** What y has sent, when x follows it still. */
  lemma {:induction false} WayBack(honest: bool, sent: seq<Sent>, counted: seq<bool>, rx: HandshakeReceiver.Rx,
                                   delivered: seq<HandshakeReceiver.Message>, rx': HandshakeReceiver.Rx,
                                   delivered': seq<HandshakeReceiver.Message>)
    requires Way(honest, sent, counted, rx, delivered) && Transport.Follows(sent, rx', delivered')
    ensures Way(honest, sent, counted, rx', delivered')
  {
    hide Transport.Follows;
  }

  /** Any step of x does to it just what it says, and nothing to y. */
  method Move(x: Connection, y: Connection, t: Step, ghost peer: seq<Sent>)
    requires Apart(x, y) && Proper(t)
    modifies x.Repr
    ensures Apart(x, y) && fresh(x.Repr - old(x.Repr)) && y.Repr == old(y.Repr)
    ensures After(old(x.View()), t, x.View()) && y.View() == old(y.View()) && y.sender.honest == old(y.sender.honest)
    ensures x.sender.honest == (old(x.sender.honest) && (t.NewWriteKeys? ==> |x.sender.keyring| <= 65536))
    ensures old(x.reader.Valid() && x.FollowsOn(t, peer)) ==> x.Follows(peer)
  {
    hide Connection.Valid, Connection.ReadRepr, RecordWriter.Writer.Repr, Sender.Valid, RecordReader.Reader.Valid, Connection.Follows,
         Connection.FromPeer, Connection.Verdict, After, Connection.View, Proper;
    Parts(x);
    Parts(y);
    if Sends(t) { x.ActSending(t); } else { x.ActReading(t, peer); }
  }

  /** When the step is regular, the two stay linked. */
  method Act(x: Connection, y: Connection, t: Step, ghost regular: bool)
    requires Apart(x, y) && (regular ==> Linked(x, y)) && Proper(t)
    modifies x.Repr
    ensures Apart(x, y) && fresh(x.Repr - old(x.Repr)) && y.Repr == old(y.Repr)
    ensures After(old(x.View()), t, x.View()) && y.View() == old(y.View())
    ensures regular && old(Regular(x.View(), y.View(), t)) ==> Linked(x, y)
  {
    hide Apart, Way, After, Connection.View, Proper, Transport.Follows;
    ViewOf(x);
    ViewOf(y);
    ghost var regularly := regular && Regular(x.View(), y.View(), t);
    if regularly { PeerRecord(x, y, t); }
    ghost var e, p, honest := x.View(), y.View(), x.sender.honest;
    Move(x, y, t, y.sender.sent);
    ViewOf(x);
    ViewOf(y);
    if regularly {
      WayAfter(e, p, t, x.View(), honest);
      KeysAfter(e, p, t, x.View());
      WayBack(y.sender.honest, y.sender.sent, y.sender.counted, e.reading.rx, e.reading.delivered, x.ring.rx, x.delivered);
    }
  }

  lemma {:induction false} KeysAfter(e: State, p: State, t: Step, e': State)
    requires After(e, t, e') && Regular(e, p, t)
    ensures t.NewWriteKeys? ==> |e'.writing.keyring| <= 65536
  {
  }

  // ----- runs

  /** A step of the first or of the second endpoint. */
  datatype Turn = Turn(first: bool, step: Step)

  /** One endpoint takes the step, the other stays as it is. */
  ghost predicate Takes(p: (State, State), t: Turn, p': (State, State)) {
    if t.first then After(p.0, t.step, p'.0) && p'.1 == p.1 else After(p.1, t.step, p'.1) && p'.0 == p.0
  }

  ghost predicate RegularTurn(p: (State, State), t: Turn) {
    if t.first then Regular(p.0, p.1, t.step) else Regular(p.1, p.0, t.step)
  }

  /** The states the two are in, before, between and after the turns. */
  ghost predicate Trace(trace: seq<(State, State)>, turns: seq<Turn>) {
    |trace| == |turns| + 1 && forall i :: 0 <= i < |turns| ==> Takes(trace[i], turns[i], trace[i + 1])
  }

  ghost predicate AllRegular(trace: seq<(State, State)>, turns: seq<Turn>) {
    |trace| > |turns| && forall i :: 0 <= i < |turns| ==> RegularTurn(trace[i], turns[i])
  }

  lemma {:induction false} TraceBegins(p: (State, State))
    ensures Trace([p], []) && AllRegular([p], [])
  {
  }

  lemma {:induction false} TraceLength(trace: seq<(State, State)>, turns: seq<Turn>)
    requires Trace(trace, turns)
    ensures |trace| == |turns| + 1
  {
  }

  lemma {:induction false} TraceMore(trace: seq<(State, State)>, turns: seq<Turn>, t: Turn, p: (State, State))
    requires Trace(trace, turns) && Takes(trace[|turns|], t, p)
    ensures Trace(trace + [p], turns + [t])
    ensures AllRegular(trace + [p], turns + [t]) <==> AllRegular(trace, turns) && RegularTurn(trace[|turns|], t)
  {
    hide Takes, RegularTurn;
    var trace', turns' := trace + [p], turns + [t];
    assert trace'[|turns|] == trace[|turns|] && turns'[|turns|] == t;
    assert forall i :: 0 <= i < |turns| ==> trace'[i] == trace[i] && turns'[i] == turns[i];
  }

  lemma {:induction false} Begun(a: Connection, b: Connection)
    requires a.Valid() && b.Valid() && a.Repr !! b.Repr && a.Follows([]) && b.Follows([])
    requires a.sender.honest && a.sender.sent == [] && a.sender.counted == []
    requires b.sender.honest && b.sender.sent == [] && b.sender.counted == []
    ensures Apart(a, b) && Linked(a, b)
  {
    hide Connection.Valid, Transport.Follows;
  }

  /** Two new endpoints. */
  method Start(readKeys: (RecordReader.Keys, RecordReader.Keys), writeKeys: (RecordWriter.SealKeys, RecordWriter.SealKeys),
               initialMs: nat, mtu: nat) returns (a: Connection, b: Connection)
    requires initialMs < TWO_32 && RecordWriter.Bounded(writeKeys.0) && RecordWriter.Bounded(writeKeys.1)
    ensures Apart(a, b) && Linked(a, b) && fresh(a.Repr) && fresh(b.Repr)
    ensures a.View() == Begin(readKeys.0, writeKeys.0, initialMs, mtu) && b.View() == Begin(readKeys.1, writeKeys.1, initialMs, mtu)
  {
    hide RecordWriter.Bounded, Connection.Valid, Transport.Follows;
    a := new Connection(readKeys.0, writeKeys.0, initialMs, mtu);
    b := new Connection(readKeys.1, writeKeys.1, initialMs, mtu);
    Begun(a, b);
  }

  /** Two endpoints with any keys, and any steps of either in any order.  They go through the states the steps
      prescribe; and when all steps were regular - no datagram that was opened was forged, no side has sent 2^16
      messages, no epoch has wrapped - each side has delivered a prefix of what the other has sent, and its raw
      bytes are the front of the other's transcript. */
  method Exchange(readKeys: (RecordReader.Keys, RecordReader.Keys), writeKeys: (RecordWriter.SealKeys, RecordWriter.SealKeys),
                  initialMs: nat, mtu: nat, turns: seq<Turn>)
    returns (a: Connection, b: Connection, ghost trace: seq<(State, State)>)
    requires initialMs < TWO_32 && RecordWriter.Bounded(writeKeys.0) && RecordWriter.Bounded(writeKeys.1)
    requires forall i :: 0 <= i < |turns| ==> Proper(turns[i].step)
    ensures Apart(a, b) && fresh(a.Repr) && fresh(b.Repr) && Trace(trace, turns) && trace[|turns|] == (a.View(), b.View())
    ensures trace[0] == (Begin(readKeys.0, writeKeys.0, initialMs, mtu), Begin(readKeys.1, writeKeys.1, initialMs, mtu))
    ensures AllRegular(trace, turns) ==>
              var x, y := trace[|turns|].0, trace[|turns|].1;
              && DeliveredPrefix(x.writing.sent, y.reading.delivered) && RawOf(y.reading.delivered) <= x.writing.transcript
              && DeliveredPrefix(y.writing.sent, x.reading.delivered) && RawOf(x.reading.delivered) <= y.writing.transcript
  {
    hide RecordWriter.Bounded, DeliveredPrefix, RawOf, Connection.Valid, Proper, Begin, Trace, AllRegular, Connection.View;
    a, b := Start(readKeys, writeKeys, initialMs, mtu);
    trace := [(a.View(), b.View())];
    TraceBegins((a.View(), b.View()));
    assert turns[..0] == [];
    for i := 0 to |turns|
      invariant Apart(a, b) && fresh(a.Repr) && fresh(b.Repr)
      invariant Trace(trace, turns[..i]) && |trace| == i + 1 && trace[i] == (a.View(), b.View())
      invariant trace[0] == (Begin(readKeys.0, writeKeys.0, initialMs, mtu), Begin(readKeys.1, writeKeys.1, initialMs, mtu))
      invariant AllRegular(trace, turns[..i]) ==> Linked(a, b)
    {
      hide Apart, Linked, After, Regular;
      TraceLength(trace, turns[..i]);
      ghost var p := (a.View(), b.View());
      if turns[i].first {
        Act(a, b, turns[i].step, AllRegular(trace, turns[..i]));
      } else {
        ApartSwap(a, b);
        Act(b, a, turns[i].step, AllRegular(trace, turns[..i]));
        ApartSwap(b, a);
      }
      assert turns[..i + 1] == turns[..i] + [turns[i]];
      TraceMore(trace, turns[..i], turns[i], (a.View(), b.View()));
      trace := trace + [(a.View(), b.View())];
    }
    assert turns[..|turns|] == turns;
    TraceLength(trace, turns);
    if AllRegular(trace, turns) {
      ViewOf(a);
      ViewOf(b);
      ApartSwap(a, b);
      Delivered(a, b);
      Delivered(b, a);
    }
  }

  lemma {:induction false} ApartSwap(x: Connection, y: Connection)
    requires Apart(x, y)
    ensures Apart(y, x) && Linked(x, y) == Linked(y, x)
  {
    hide Connection.Valid, Way;
  }

  lemma {:induction false} Delivered(x: Connection, y: Connection)
    requires Apart(x, y) && Linked(x, y)
    ensures DeliveredPrefix(x.sender.sent, y.delivered) && RawOf(y.delivered) <= x.sender.transcript
  {
    Parts(x);
    hide Connection.Valid, Sender.Valid, DeliveredPrefix, RawOf;
    y.DeliversPeer(x.sender);
  }
}
