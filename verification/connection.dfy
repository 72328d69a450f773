/** A connection: the record layer, the ring of incoming messages and the flight of outgoing ones. */
module Connection {
  import opened Bits
  import RecordReader
  import RecordWriter
  import HandshakeReceiver
  import opened HandshakeRing
  import opened RetransmitTimer
  import FlightPass
  import HandshakeFormat
  import opened FlightSender
  import opened SenderHistory
  import opened Transport
  import opened Authenticity
  import RecordDelivery
  import opened Endpoint
  import opened SenderState

  /** What a call that opens a record came to: what the record layer says, or the outcome for the
      handshake. */
  datatype Result = Layer(result: RecordReader.Opened) | Handled(outcome: HandshakeReceiver.Outcome)

  /** The record that the record layer hands on, if it does. */
  ghost function HandedOn(v: RecordReader.Verdict): Option<(byte, seq<byte>)> {
    if v.Accept? && v.kind != RecordReader.RT_ALERT then Some((v.kind, v.body)) else None
  }

  /** What the record layer says when it hands nothing on. */
  ghost function Refusal(readShutdown: bool, in_: seq<byte>, v: RecordReader.Verdict): RecordReader.Opened {
    if readShutdown then RecordReader.CloseNotify
    else if in_ == [] then RecordReader.Partial
    else match v
      case Accept(_, _, body) => RecordReader.Alert(body)
      case Overflow => RecordReader.Error
      case Drop => RecordReader.Opened.Discard
  }

  lemma {:induction false} RingState(ring: Ring)
    requires ring.Valid()
    ensures ring.rx.epoch == ring.epoch && ring.rx.hasMessage == ring.hasMessage
    ensures |ring.rx.slots| == HandshakeReceiver.FLIGHT && HandshakeReceiver.RxOk(ring.rx)
    ensures ring in ring.Repr && ring.incoming in ring.Repr
  {
  }

  lemma {:induction false} RingFlags(ring: Ring)
    requires ring.Valid()
    ensures ring.rx.hasCcs == ring.hasCcs
  {
  }

  /** Taking a ChangeCipherSpec that was flagged only clears the flag. */
  lemma {:induction false} CcsEpoch(rx: HandshakeReceiver.Rx, kind: byte, body: seq<byte>, nullCipher: bool, maxLen: nat)
    requires |rx.slots| == HandshakeReceiver.FLIGHT && HandshakeReceiver.RxOk(rx)
    ensures HandshakeReceiver.OpenChangeCipherSpec(rx, kind, body, nullCipher, maxLen).0.epoch == rx.epoch
    ensures rx.hasCcs ==> HandshakeReceiver.OpenChangeCipherSpec(rx, kind, body, nullCipher, maxLen) ==
                          (rx.(hasCcs := false), HandshakeReceiver.Success)
  {
    OpenEpoch(rx, kind, body, nullCipher, maxLen);
  }

  lemma {:induction false} OpenEpoch(rx: HandshakeReceiver.Rx, kind: byte, body: seq<byte>, nullCipher: bool, maxLen: nat)
    requires |rx.slots| == HandshakeReceiver.FLIGHT && HandshakeReceiver.RxOk(rx)
    ensures HandshakeReceiver.OpenHandshake(rx, kind, body, nullCipher, maxLen).0.epoch == rx.epoch
  {
    HandshakeReceiver.RecordKeeps(rx, body, maxLen);
  }

  lemma {:induction false} StartFollows()
    ensures Transport.Follows([], HandshakeReceiver.Start(), [])
  {
    EndToEnd([]);
  }

  lemma {:induction false} PeerWire(peer: Sender)
    requires peer.Valid() && peer.honest
    ensures |peer.keyring| <= 65536
    ensures forall k :: 0 <= k < |peer.network| ==> AllSealedUnder(peer.keyring, peer.network[k])
  {
  }

  class Connection {
    const ring: Ring
    const reader: RecordReader.Reader
    const sender: Sender
    /** The messages the handshake has processed. */
    ghost var delivered: seq<HandshakeReceiver.Message>
    ghost var Repr: set<object>

    ghost function ReadRepr(): set<object>
      reads ring
    {
      ring.Repr + {reader, reader.window}
    }

    /** The receiving side as a value. */
    ghost function Reading(): ReadSide
      reads this, ring, reader, reader.window
    {
      ReadSide(ring.rx, reader.window.recorded, reader.keys, reader.readShutdown, delivered)
    }

    /** The endpoint as a value. */
    ghost function View(): State
      reads this, ring, reader, reader.window, sender, sender.timer, sender.writer
    {
      State(Reading(), sender.View())
    }

    /** Both sides are in order, share no state, and ring and record layer read the same epoch. */
    ghost predicate Valid()
      reads this, Repr
    {
      && this in Repr && ring in Repr && ReadRepr() <= Repr && sender.Repr() <= Repr
      && ring in ring.Repr && ring.Repr !! {reader as object, reader.window}
      && ReadRepr() !! sender.Repr() && this !in ReadRepr() + sender.Repr()
      && ring.Valid() && reader.Valid() && sender.Valid()
      && ring.epoch == reader.epoch
    }

    /** The receiving side holds and has delivered only what a peer sent. */
    ghost predicate Follows(sent: seq<Sent>)
      reads this, ring
    {
      Transport.Follows(sent, ring.rx, delivered)
    }

    constructor (readKeys: RecordReader.Keys, writeKeys: RecordWriter.SealKeys, initialMs: nat, mtu: nat)
      requires RecordWriter.Bounded(writeKeys) && initialMs < TWO_32
      ensures Valid() && fresh(Repr) && View() == Begin(readKeys, writeKeys, initialMs, mtu) && Follows([]) && sender.honest
    {
      hide Ring.Valid, RecordReader.Reader.Valid, Sender.Valid, Transport.Follows, RecordWriter.Bounded;
      var incoming := new Ring();
      RingState(incoming);
      ring := incoming;
      reader := new RecordReader.Reader(readKeys);
      sender := new Sender(writeKeys, initialMs, mtu);
      delivered, Repr := [], {};
      new;
      Repr := {this} + ReadRepr() + sender.Repr();
      StartFollows();
    }

    /** What the record layer makes of a datagram. */
    ghost function Verdict(s: seq<byte>): RecordReader.Verdict
      requires reader.Valid()
      reads reader, reader.window
    {
      if reader.readShutdown || s == [] then RecordReader.Drop
      else RecordReader.Judge(reader.epoch, reader.keys, reader.window.recorded, s)
    }

    /** A handshake record of the peer's. */
    ghost predicate FromPeer(peer: seq<Sent>, v: RecordReader.Verdict) {
      v.Accept? && v.kind == HandshakeReceiver.RT_HANDSHAKE ==> Genuine(peer, v.body)
    }

    /** How much of a datagram its first record takes. */
    ghost function Taken(s: seq<byte>): nat
      reads reader
    {
      if reader.readShutdown || s == [] then 0 else RecordDelivery.Past(reader.keys, s)
    }

    /** What reading a record comes to, by the verdict of the record layer. */
    lemma {:induction false} ReadingAs(s: seq<byte>, maxLen: nat)
      requires Valid()
      ensures |ring.rx.slots| == HandshakeReceiver.FLIGHT
      ensures var v := Verdict(s);
              var recorded := reader.window.recorded + if v.Accept? then {v.n} else {};
              && Opened(Reading(), s, maxLen) == Reading().(recorded := recorded, rx := match HandedOn(v)
                   case None => ring.rx
                   case Some((kind, body)) => HandshakeReceiver.OpenHandshake(ring.rx, kind, body, reader.keys.nullCipher, maxLen).0)
              && (!ring.hasCcs ==>
                    OpenedForCcs(Reading(), s, maxLen) == Reading().(recorded := recorded, rx := match HandedOn(v)
                      case None => ring.rx
                      case Some((kind, body)) =>
                        HandshakeReceiver.OpenChangeCipherSpec(ring.rx, kind, body, reader.keys.nullCipher, maxLen).0))
              && (ring.hasCcs ==> OpenedForCcs(Reading(), s, maxLen) == Reading().(rx := ring.rx.(hasCcs := false)))
    {
      RingState(ring);
      RingFlags(ring);
      hide Ring.Valid, RecordReader.Reader.Valid, Sender.Valid, RecordReader.Judge, HandshakeReceiver.OpenHandshake,
           HandshakeReceiver.OpenChangeCipherSpec, HandshakeReceiver.RxOk;
      var v := Verdict(s);
      assert reader.window.recorded + {} == reader.window.recorded;
    }

    /** Opens the record at the front of a datagram and hands it to the handshake. */
    method OpenHandshake(in_: seq<byte>, maxLen: nat, ghost peer: seq<Sent>) returns (r: Result, consumed: nat)
      requires Valid()
      modifies ring.Repr, reader.window, this`Repr
      ensures Valid() && consumed <= |in_| && consumed == Taken(in_) && fresh(Repr - old(Repr))
      ensures After(old(View()), Step.OpenHandshake(in_, maxLen), View())
      ensures var v := old(Verdict(in_));
              && reader.window.recorded == old(reader.window.recorded) + (if v.Accept? then {v.n} else {})
              && (old(Follows(peer)) && FromPeer(peer, v) ==> Follows(peer))
              && match HandedOn(v)
                 case None => r == Layer(Refusal(reader.readShutdown, in_, v)) && ring.rx == old(ring.rx)
                 case Some((kind, body)) =>
                   && r.Handled?
                   && (ring.rx, r.outcome) ==
                      HandshakeReceiver.OpenHandshake(old(ring.rx), kind, body, reader.keys.nullCipher, maxLen)
    {
      ReadingAs(in_, maxLen);
      hide Ring.Valid, RecordReader.Reader.Valid, Sender.Valid, RecordReader.Judge, HandshakeReceiver.OpenHandshake,
           HandshakeReceiver.RxOk, RecordReader.ParseHeader, RecordReader.VersionOk, Transport.Follows, Genuine, Opened, OpenedForCcs;
      r, consumed := OpenThenHandle(in_, maxLen, peer);
    }

    method OpenThenHandle(in_: seq<byte>, maxLen: nat, ghost peer: seq<Sent>) returns (r: Result, consumed: nat)
      requires Valid()
      modifies ring.Repr, reader.window, this`Repr
      ensures Valid() && consumed <= |in_| && fresh(Repr - old(Repr))
      ensures consumed == Taken(in_)
      ensures var v := old(Verdict(in_));
              && reader.window.recorded == old(reader.window.recorded) + (if v.Accept? then {v.n} else {})
              && (old(Follows(peer)) && FromPeer(peer, v) ==> Follows(peer))
              && match HandedOn(v)
                 case None => r == Layer(Refusal(reader.readShutdown, in_, v)) && ring.rx == old(ring.rx)
                 case Some((kind, body)) =>
                   && r.Handled?
                   && (ring.rx, r.outcome) ==
                      HandshakeReceiver.OpenHandshake(old(ring.rx), kind, body, reader.keys.nullCipher, maxLen)
    {
      hide Ring.Valid, RecordReader.Reader.Valid, Sender.Valid, RecordReader.Judge, HandshakeReceiver.OpenHandshake,
           HandshakeReceiver.RxOk, RecordReader.ParseHeader, RecordReader.VersionOk, Transport.Follows, Genuine;
      var got;
      got, consumed := reader.Open(in_);
      if got.Success? {
        ghost var nullCipher := reader.keys.nullCipher;
        RingState(ring);
        OpenEpoch(ring.rx, got.kind, got.body, nullCipher, maxLen);
        if Follows(peer) && (got.kind == HandshakeReceiver.RT_HANDSHAKE ==> Genuine(peer, got.body)) {
          StepFollows(peer, ring.rx, delivered, HandshakeReceiver.Record(got.kind, got.body, nullCipher, maxLen));
          assert delivered + [] == delivered;
        }
        var outcome := ring.OpenHandshake(got.kind, got.body, reader.keys.nullCipher, maxLen);
        RingState(ring);
        Repr := Repr + ring.Repr;
        r := Handled(outcome);
      } else {
        r := Layer(got);
      }
    }

    /** Takes a ChangeCipherSpec; if none was flagged, the record at the front of a datagram is opened first. */
    method OpenChangeCipherSpec(in_: seq<byte>, maxLen: nat, ghost peer: seq<Sent>) returns (r: Result, consumed: nat)
      requires Valid()
      modifies ring.Repr, reader.window, this`Repr
      ensures Valid() && consumed <= |in_| && fresh(Repr - old(Repr))
      ensures After(old(View()), Step.OpenChangeCipherSpec(in_, maxLen), View())
      ensures old(ring.hasCcs) ==>
                && r == Handled(HandshakeReceiver.Success) && consumed == 0 && ring.rx == old(ring.rx).(hasCcs := false)
                && reader.window.recorded == old(reader.window.recorded) && (old(Follows(peer)) ==> Follows(peer))
      ensures !old(ring.hasCcs) ==>
                var v := old(Verdict(in_));
                && consumed == Taken(in_)
                && reader.window.recorded == old(reader.window.recorded) + (if v.Accept? then {v.n} else {})
                && (old(Follows(peer)) && FromPeer(peer, v) ==> Follows(peer))
                && match HandedOn(v)
                   case None => r == Layer(Refusal(reader.readShutdown, in_, v)) && ring.rx == old(ring.rx)
                   case Some((kind, body)) =>
                     && r.Handled?
                     && (ring.rx, r.outcome) ==
                        HandshakeReceiver.OpenChangeCipherSpec(old(ring.rx), kind, body, reader.keys.nullCipher, maxLen)
    {
      RingFlags(ring);
      ReadingAs(in_, maxLen);
      hide Ring.Valid, RecordReader.Reader.Valid, Sender.Valid, RecordReader.Judge, HandshakeReceiver.OpenChangeCipherSpec,
           HandshakeReceiver.RxOk, RecordReader.ParseHeader, RecordReader.VersionOk, Transport.Follows, Genuine, Opened, OpenedForCcs;
      if ring.hasCcs {
        TakeFlagged(peer);
        r, consumed := Handled(HandshakeReceiver.Success), 0;
      } else {
        r, consumed := OpenThenTake(in_, maxLen, peer);
      }
    }

    method OpenThenTake(in_: seq<byte>, maxLen: nat, ghost peer: seq<Sent>) returns (r: Result, consumed: nat)
      requires Valid()
      modifies ring.Repr, reader.window, this`Repr
      ensures Valid() && consumed <= |in_| && fresh(Repr - old(Repr))
      ensures var v := old(Verdict(in_));
              && consumed == Taken(in_)
              && reader.window.recorded == old(reader.window.recorded) + (if v.Accept? then {v.n} else {})
              && (old(Follows(peer)) && FromPeer(peer, v) ==> Follows(peer))
              && match HandedOn(v)
                 case None => r == Layer(Refusal(reader.readShutdown, in_, v)) && ring.rx == old(ring.rx)
                 case Some((kind, body)) =>
                   && r.Handled?
                   && (ring.rx, r.outcome) ==
                      HandshakeReceiver.OpenChangeCipherSpec(old(ring.rx), kind, body, reader.keys.nullCipher, maxLen)
    {
      hide Ring.Valid, RecordReader.Reader.Valid, Sender.Valid, RecordReader.Judge, HandshakeReceiver.OpenChangeCipherSpec,
           HandshakeReceiver.RxOk, RecordReader.ParseHeader, RecordReader.VersionOk, Transport.Follows, Genuine;
      var got;
      got, consumed := reader.Open(in_);
      if got.Success? {
        var outcome := HandleChangeCipherSpec(got.kind, got.body, maxLen, peer);
        r := Handled(outcome);
      } else {
        r := Layer(got);
      }
    }

    /** A flagged ChangeCipherSpec needs no record. */
    method TakeFlagged(ghost peer: seq<Sent>)
      requires Valid() && ring.rx.hasCcs
      modifies ring.Repr, this`Repr
      ensures Valid() && fresh(Repr - old(Repr)) && ring.rx == old(ring.rx).(hasCcs := false)
      ensures old(Follows(peer)) ==> Follows(peer)
    {
      RingState(ring);
      CcsEpoch(ring.rx, 0, [], reader.keys.nullCipher, 0);
      hide HandshakeReceiver.OpenChangeCipherSpec;
      var r := HandleChangeCipherSpec(0, [], 0, peer);
    }

    /** An opened record is handled like any other of the handshake, and then a ChangeCipherSpec taken. */
    method HandleChangeCipherSpec(kind: byte, body: seq<byte>, maxLen: nat, ghost peer: seq<Sent>)
      returns (r: HandshakeReceiver.Outcome)
      requires Valid()
      modifies ring.Repr, this`Repr
      ensures Valid() && fresh(Repr - old(Repr))
      ensures old(Follows(peer)) && (kind == HandshakeReceiver.RT_HANDSHAKE ==> Genuine(peer, body)) ==> Follows(peer)
      ensures (ring.rx, r) == HandshakeReceiver.OpenChangeCipherSpec(old(ring.rx), kind, body, reader.keys.nullCipher, maxLen)
    {
      hide Ring.Valid, RecordReader.Reader.Valid, Sender.Valid, HandshakeReceiver.OpenChangeCipherSpec,
           HandshakeReceiver.RxOk, Transport.Follows, Genuine;
      RingState(ring);
      ghost var nullCipher := reader.keys.nullCipher;
      CcsEpoch(ring.rx, kind, body, nullCipher, maxLen);
      if Follows(peer) && (kind == HandshakeReceiver.RT_HANDSHAKE ==> Genuine(peer, body)) {
        StepFollows(peer, ring.rx, delivered, HandshakeReceiver.Ccs(kind, body, nullCipher, maxLen));
        assert delivered + [] == delivered;
      }
      r := ring.OpenChangeCipherSpec(kind, body, reader.keys.nullCipher, maxLen);
      RingState(ring);
      Repr := Repr + ring.Repr;
    }

    /** The next message in sequence, if it is complete: it is the peer's next one. */
    method GetMessage(ghost peer: seq<Sent>) returns (m: Option<HandshakeReceiver.Message>)
      requires Valid()
      modifies ring
      ensures Valid() && (ring.rx, m) == HandshakeReceiver.GetMessage(old(ring.rx))
      ensures After(old(View()), Step.GetMessage, View())
      ensures old(Follows(peer)) ==> Follows(peer)
      ensures old(Follows(peer)) && m.Some? ==>
                var n := |delivered|;
                n < |peer| && m == Some(HandshakeReceiver.Message(peer[n].kind, peer[n].body, TranscriptBytes(peer[n], n)))
    {
      hide Ring.Valid, RecordReader.Reader.Valid, Sender.Valid, HandshakeReceiver.RxOk, TranscriptBytes;
      RingState(ring);
      if Follows(peer) {
        StepFollows(peer, ring.rx, delivered, HandshakeReceiver.Get);
        assert delivered + [] == delivered;
        if HandshakeReceiver.CurrentComplete(ring.rx) { CurrentSent(peer, ring.rx); }
      }
      hide Transport.Follows, HandshakeReceiver.CurrentComplete;
      m := ring.GetMessage();
      RingState(ring);
    }

    /** The handshake is done with a message: its slot is freed, and a flight that was sent has a reply. */
    method NextMessage(ghost peer: seq<Sent>)
      requires Valid() && ring.hasMessage
      modifies this`delivered, ring, ring.incoming, sender`hasReply
      ensures Valid() && ring.rx == HandshakeReceiver.NextMessage(old(ring.rx))
      ensures After(old(View()), Step.NextMessage, View())
      ensures delivered == old(delivered) + Processed(old(ring.rx), HandshakeReceiver.Next)
      ensures old(Follows(peer)) ==> Follows(peer)
    {
      hide Ring.Valid, RecordReader.Reader.Valid, Sender.Valid, HandshakeReceiver.RxOk, Transport.Follows, Processed;
      RingState(ring);
      if Follows(peer) { StepFollows(peer, ring.rx, delivered, HandshakeReceiver.Next); }
      delivered := delivered + Processed(ring.rx, HandshakeReceiver.Next);
      ring.NextMessage();
      sender.MessageTaken();
      RingState(ring);
    }

    /** Changes the read keys, unless handshake data of the current epoch is left over: ring and record
        layer move to the next epoch together, and the replay window starts empty. */
    method SetReadState(next: RecordReader.Keys, ghost peer: seq<Sent>) returns (ok: bool)
      requires Valid()
      modifies ring, reader`epoch, reader`keys, reader.window
      ensures Valid() && (old(Follows(peer)) ==> Follows(peer)) && After(old(View()), Step.NewReadKeys(next), View())
      ensures match HandshakeReceiver.SetReadState(old(ring.rx))
              case None =>
                && !ok && ring.rx == old(ring.rx) && reader.keys == old(reader.keys)
                && reader.window.recorded == old(reader.window.recorded)
              case Some(rx) => ok && ring.rx == rx && reader.keys == next && reader.window.recorded == {}
    {
      hide Ring.Valid, RecordReader.Reader.Valid, Sender.Valid, HandshakeReceiver.RxOk, Transport.Follows,
           HandshakeReceiver.HasUnprocessed;
      RingState(ring);
      if Follows(peer) {
        StepFollows(peer, ring.rx, delivered, HandshakeReceiver.Rekey);
        assert delivered + [] == delivered;
      }
      ok := ring.SetReadState();
      RingState(ring);
      if ok { reader.Rekey(next); }
    }

    /** Changes the write keys. */
    method SetWriteState(next: RecordWriter.SealKeys)
      requires Valid() && RecordWriter.Bounded(next)
      modifies sender.writer.Repr(), sender`keyring, sender`honest
      ensures Valid() && After(old(View()), NewWriteKeys(next), View())
      ensures sender.honest == (old(sender.honest) && |sender.keyring| <= 65536)
      ensures sender.writer.keys == next && sender.writer.lastKeys == old(sender.writer.keys)
    {
      hide Ring.Valid, RecordReader.Reader.Valid, Sender.Valid, MessageAdded, Finished;
      sender.SetWriteState(next);
    }

    // ----- the sending side

    /** Submits a message of the handshake. */
    method Submit(kind: byte, body: seq<byte>) returns (ok: bool)
      requires Valid()
      modifies sender`outgoing, sender`written, sender`offset, sender`complete, sender`hasReply, sender`attempts, sender`passStart
      modifies sender`writeSeq, sender`transcript, sender`sent, sender`counted, sender`honest, sender.timer
      ensures Valid() && sender.honest == old(sender.honest)
      ensures After(old(View()), SubmitMessage(kind, body), View())
      ensures ok == (|body| < 0x100_0000 && (old(sender.complete) || |old(sender.outgoing)| < 7))
    {
      hide Ring.Valid, RecordReader.Reader.Valid, Sender.Valid, MessageAdded, Finished;
      ok := sender.AddMessage(kind, body, true);
    }

    method AddChangeCipherSpec() returns (ok: bool)
      requires Valid()
      modifies sender`outgoing, sender`written, sender`offset, sender`complete, sender`hasReply, sender`attempts, sender`passStart
      modifies sender`writeSeq, sender`transcript, sender`sent, sender`counted, sender`honest, sender.timer
      ensures Valid() && sender.honest == old(sender.honest)
      ensures After(old(View()), SubmitChangeCipherSpec, View())
      ensures ok == (old(sender.complete) || |old(sender.outgoing)| < 7)
    {
      hide Ring.Valid, RecordReader.Reader.Valid, Sender.Valid, MessageAdded, Finished;
      ok := sender.AddChangeCipherSpec();
    }

    method FlushFlight(now: Time, shutDown: bool, queryMtu: bool, offered: int, outside: Outside) returns (r: SendResult)
      requires Valid() && Normal(now)
      modifies sender`complete, sender`written, sender`offset, sender`attempts, sender`network, sender`mtu, sender.timer
      modifies sender.writer`ops, sender.writer.writeSequence, sender.writer.lastWriteSequence
      ensures Valid()
      ensures After(old(View()), Flush(now, shutDown, queryMtu, offered, outside), View())
    {
      hide Ring.Valid, RecordReader.Reader.Valid, Sender.Valid, Normal, SentOn, FlightPass.NothingDropped, Handling;
      ghost var more;
      r, more := sender.FlushFlight(now, shutDown, queryMtu, offered, outside);
    }

    method HandleTimeout(now: Time, fallback: int, shutDown: bool, queryMtu: bool, offered: int, outside: Outside)
      returns (expired: bool)
      requires Valid() && Normal(now)
      modifies sender`written, sender`offset, sender`attempts, sender`passStart, sender`network, sender`mtu, sender.timer
      modifies sender.writer`ops, sender.writer.writeSequence, sender.writer.lastWriteSequence
      ensures Valid() && expired == Expired(old(sender.timer.Now()), now)
      ensures After(old(View()), Timeout(now, fallback, shutDown, queryMtu, offered, outside), View())
    {
      hide Ring.Valid, RecordReader.Reader.Valid, Sender.Valid, Normal, SentOn, FlightPass.NothingDropped, Handling;
      var r;
      expired, r := sender.HandleTimeout(now, fallback, shutDown, queryMtu, offered, outside);
    }

    method HandshakeComplete()
      requires Valid()
      modifies sender`outgoing, sender`written, sender`offset, sender`complete, sender`hasReply, sender`attempts, sender`passStart
      modifies sender.timer
      ensures Valid() && After(old(View()), Finish, View())
    {
      hide Ring.Valid, RecordReader.Reader.Valid, Sender.Valid, MessageAdded, Finished;
      sender.OnHandshakeComplete();
    }

    // ----- any step

    /** The handshake has not been given a message it could be done with. */
    lemma {:induction false} NothingDone()
      requires Valid() && !ring.hasMessage
      ensures After(View(), Step.NextMessage, View())
    {
      RingState(ring);
      assert delivered + [] == delivered;
    }

    /** What follows the peer goes on doing so, if the record that is opened is the peer's. */
    ghost predicate FollowsOn(t: Step, peer: seq<Sent>)
      requires reader.Valid()
      reads this, ring, reader, reader.window
    {
      Follows(peer) && (t.OpenHandshake? || t.OpenChangeCipherSpec? ==> FromPeer(peer, Verdict(t.datagram)))
    }

    /** Steps of the receiving side. */
    method ActReading(t: Step, ghost peer: seq<Sent>)
      requires Valid() && !Sends(t)
      modifies Repr
      ensures Valid() && fresh(Repr - old(Repr)) && After(old(View()), t, View()) && sender.honest == old(sender.honest)
      ensures old(reader.Valid() && FollowsOn(t, peer)) ==> Follows(peer)
    {
      hide Valid, View, After, Follows, FromPeer, Verdict, HandedOn, Refusal, Taken, HandshakeReceiver.GetMessage,
           HandshakeReceiver.NextMessage, HandshakeReceiver.SetReadState, Processed, Ring.Valid, Sender.Valid, RecordReader.Reader.Valid;
      assert ReadingParts() by { InParts(); }
      match t
      case OpenHandshake(s, maxLen) => var r, consumed := OpenHandshake(s, maxLen, peer);
      case OpenChangeCipherSpec(s, maxLen) => var r, consumed := OpenChangeCipherSpec(s, maxLen, peer);
      case GetMessage => var m := GetMessage(peer);
      case NextMessage => if ring.hasMessage { NextMessage(peer); } else { NothingDone(); }
      case NewReadKeys(next) => var ok := SetReadState(next, peer);
    }

    ghost predicate ReadingParts()
      reads this, ring, sender, reader, reader.window
    {
      && this in Repr && ReadRepr() <= Repr && {ring, ring.incoming, sender} <= Repr && ring.Repr <= Repr && reader.Valid()
      && sender !in ring.Repr + {this, ring, ring.incoming}
    }

    lemma {:induction false} InParts()
      requires Valid()
      ensures ReadingParts() && {sender, sender.timer} <= Repr && sender.writer.Repr() <= Repr
      ensures {sender.writer, sender.writer.writeSequence, sender.writer.lastWriteSequence} <= Repr
    {
      RingState(ring);
    }

    /** Steps of the sending side. */
    method ActSending(t: Step)
      requires Valid() && Sends(t) && Proper(t)
      modifies sender, sender.timer, sender.writer.Repr()
      ensures Valid() && After(old(View()), t, View())
      ensures sender.honest == (old(sender.honest) && (t.NewWriteKeys? ==> |sender.keyring| <= 65536))
    {
      hide Valid, View, After, Follows, Ring.Valid, Sender.Valid, RecordReader.Reader.Valid, Normal, RecordWriter.Bounded;
      InParts();
      match t
      case SubmitMessage(kind, body) => var ok := Submit(kind, body);
      case SubmitChangeCipherSpec => var ok := AddChangeCipherSpec();
      case Flush(now, shutDown, queryMtu, offered, outside) => var r := FlushFlight(now, shutDown, queryMtu, offered, outside);
      case Timeout(now, fallback, shutDown, queryMtu, offered, outside) =>
        var expired := HandleTimeout(now, fallback, shutDown, queryMtu, offered, outside);
      case Finish => HandshakeComplete();
      case NewWriteKeys(next) => SetWriteState(next);
    }

    // ----- two endpoints

    /** An authentic datagram holds a handshake record only if the peer has sent it. */
    lemma {:induction false} AuthenticFromPeer(peer: Sender, s: seq<byte>)
      requires reader.Valid() && peer.Valid() && peer.honest && |peer.sent| < HandshakeFormat.TWO_16
      requires Authentic(peer.network, peer.keyring, reader.epoch, reader.keys, s)
      ensures FromPeer(peer.sent, Verdict(s))
    {
      PeerWire(peer);
      hide Sender.Valid, Authentic, RecordReader.Judge, AllPlainFrom, AllSealedUnder, Genuine;
      var v := Verdict(s);
      if v.Accept? && v.kind == HandshakeReceiver.RT_HANDSHAKE {
        var i, j := AcceptedSealed(peer.network, peer.keyring, reader.epoch, reader.keys, reader.window.recorded, s);
        peer.WireHonest(i, j);
      }
    }

    /** The peer goes on submitting messages. */
    lemma {:induction false} PeerSubmits(peer: seq<Sent>, m: Sent)
      requires Follows(peer) && Numbered(peer + [m])
      ensures Follows(peer + [m])
    {
      FollowsMore(peer, ring.rx, delivered, m);
    }

    /** What this side has processed has the front of the peer's transcript as its raw bytes. */
    lemma {:induction false} DeliversPeer(peer: Sender)
      requires peer.Valid() && peer.honest && Follows(peer.sent)
      requires forall i :: 0 <= i < |peer.counted| ==> peer.counted[i]
      ensures RawOf(delivered) <= peer.transcript
    {
      DeliveredTranscript(peer.sent, delivered, peer.counted);
    }
  }
}
