/** What a clean pass achieves: once its datagrams have arrived, the receiver hands out the flight. */
module FlightDelivery {
  import opened Bits
  import opened HandshakeFormat
  import opened HandshakeReceiver
  import opened Flight
  import opened FlightPass
  import opened SenderHistory
  import opened Transport
  import opened FlightSender

  /** Queued message msg is message i of those submitted. */
  predicate IsQueued(sent: seq<Sent>, out: seq<Outgoing>, msg: nat, i: nat) {
    msg < |out| && !out[msg].isCcs && i < |sent| && out[msg].data == MessageBytes(sent, i)
  }

  /** The record that t transmits is that of the piece. */
  predicate Matches(sent: seq<Sent>, t: Transmission, d: SealedPiece) {
    t.i < |sent| && t.from <= t.to <= |sent[t.i].body| && d.plain == FragmentBytes(SliceFragment(sent, t.i, t.from, t.to))
  }

  /** Among what arrives is the record of every handshake piece. */
  ghost predicate Conveys(sent: seq<Sent>, ts: seq<Transmission>, ds: seq<SealedPiece>) {
    forall q :: 0 <= q < |ds| && ds[q].kind == KIND_HANDSHAKE ==> exists j :: 0 <= j < |ts| && Matches(sent, ts[j], ds[q])
  }

  ghost predicate AllCarried(out: seq<Outgoing>, ds: seq<SealedPiece>) {
    forall q :: 0 <= q < |ds| ==> Carries(out, ds[q])
  }

  lemma {:induction false} PieceOfMessage(sent: seq<Sent>, out: seq<Outgoing>, d: SealedPiece, i: nat)
    requires Numbered(sent) && Carries(out, d) && IsQueued(sent, out, d.piece.msg, i)
    ensures |BodyOf(out[d.piece.msg])| == |sent[i].body| && d.kind == KIND_HANDSHAKE
    ensures Matches(sent, Transmission(i, d.piece.from, d.piece.to), d)
  {
    hide FragmentBytes, ParseFragment;
    var f := Fragment(sent[i].kind, |sent[i].body|, i % TWO_16, 0, sent[i].body);
    SmallNumber(i);
    FragmentRoundTrip(f, []);
    assert FragmentBytes(f) + [] == FragmentBytes(f);
    var m := out[d.piece.msg];
    assert ParseFragment(m.data) == Good(f, |m.data|);
  }

  lemma {:induction false} SmallNumber(i: nat)
    requires i < TWO_16
    ensures i % TWO_16 == i
  {
  }

  /** A record stands for one slice only. */
  lemma {:induction false} OneSlice(sent: seq<Sent>, s: Transmission, t: Transmission, d: SealedPiece)
    requires Numbered(sent) && Matches(sent, s, d) && Matches(sent, t, d)
    ensures s == t
  {
    var f, g := SliceFragment(sent, s.i, s.from, s.to), SliceFragment(sent, t.i, t.from, t.to);
    assert |f.body| == s.to - s.from && |g.body| == t.to - t.from;
    FragmentRoundTrip(f, []);
    FragmentRoundTrip(g, []);
    hide FragmentBytes, ParseFragment;
    assert d.plain + [] == d.plain;
    assert f == g;
  }

  lemma {:induction false} CarrierOf(ps: seq<Piece>, msg: nat, k: nat) returns (q: nat)
    requires Carriers(ps, msg, k) >= 1
    ensures q < |ps| && ps[q].msg == msg && ps[q].from <= k < ps[q].to
  {
    var n := |ps| - 1;
    if ps[n].msg == msg && ps[n].from <= k < ps[n].to { q := n; } else { q := CarrierOf(ps[..n], msg, k); }
  }

  lemma {:induction false} SomePiece(ps: seq<Piece>, msg: nat) returns (q: nat)
    requires PiecesOf(ps, msg) >= 1
    ensures q < |ps| && ps[q].msg == msg
  {
    var n := |ps| - 1;
    if ps[n].msg == msg { q := n; } else { q := SomePiece(ps[..n], msg); }
  }

  /** A message that is carried whole is brought whole. */
  lemma {:induction false} TiledBrings(sent: seq<Sent>, out: seq<Outgoing>, ds: seq<SealedPiece>, ts: seq<Transmission>, msg: nat, i: nat)
    requires Numbered(sent) && IsQueued(sent, out, msg, i) && AllCarried(out, ds)
    requires MessageTiled(out, PiecesIn(ds), msg) && Conveys(sent, ts, ds)
    ensures BroughtWhole(sent, ts, i)
  {
    var ps := PiecesIn(ds);
    var any := SomePiece(ps, msg);
    PieceOfMessage(sent, out, ds[any], i);
    forall k: nat | k <= |sent[i].body|
      ensures Brought(sent, ts, i, k)
    {
      var q := any;
      if k < |sent[i].body| { q := CarrierOf(ps, msg, k); }
      PieceBrings(sent, out, ds, ts, q, i, k);
    }
  }

  lemma {:induction false} PieceBrings(sent: seq<Sent>, out: seq<Outgoing>, ds: seq<SealedPiece>, ts: seq<Transmission>, q: nat, i: nat, k: nat)
    requires Numbered(sent) && q < |ds| && AllCarried(out, ds) && IsQueued(sent, out, ds[q].piece.msg, i) && Conveys(sent, ts, ds)
    requires ds[q].piece.from <= k < ds[q].piece.to || k >= |sent[i].body|
    ensures Brought(sent, ts, i, k)
  {
    hide Carries, Numbered, Matches, IsQueued;
    PieceOfMessage(sent, out, ds[q], i);
    var j :| 0 <= j < |ts| && Matches(sent, ts[j], ds[q]);
    OneSlice(sent, ts[j], Transmission(i, ds[q].piece.from, ds[q].piece.to), ds[q]);
    assert i < |sent| by { QueuedIndex(sent, out, ds[q].piece.msg, i); }
    assert Brings(sent, ts[j], i, k);
  }

  lemma {:induction false} QueuedIndex(sent: seq<Sent>, out: seq<Outgoing>, msg: nat, i: nat)
    requires IsQueued(sent, out, msg, i)
    ensures i < |sent|
  {
  }

  /** What accepted attempts put on the wire are pieces of the queue. */
  lemma {:induction false} PassCarries(out: seq<Outgoing>, attempts: seq<Attempt>)
    requires AfterAttempts(out, attempts).Some?
    ensures AllCarried(out, PiecesWith(attempts, {Accepted}))
  {
    hide Carries, Protects, Walk;
    if attempts != [] {
      var before, last := attempts[..|attempts| - 1], attempts[|attempts| - 1];
      PassCarries(out, before);
      assert AttemptOk(out, AfterAttempts(out, before).value, last);
      assert FlightPass.Genuine(out, last.ks, last.ds);
    }
  }

  /** Message i is in the flight. */
  ghost predicate InFlight(sent: seq<Sent>, out: seq<Outgoing>, i: nat) { exists msg: nat :: IsQueued(sent, out, msg, i) }

  lemma {:induction false} TiledFlightBrings(sent: seq<Sent>, out: seq<Outgoing>, ds: seq<SealedPiece>, ts: seq<Transmission>, i: nat)
    requires Numbered(sent) && InFlight(sent, out, i) && AllCarried(out, ds) && Tiles(out, PiecesIn(ds)) && Conveys(sent, ts, ds)
    ensures i < |sent| && BroughtWhole(sent, ts, i)
  {
    var msg: nat :| IsQueued(sent, out, msg, i);
    hide Numbered, AllCarried, MessageTiled, Conveys, BroughtWhole, PiecesIn;
    assert MessageTiled(out, PiecesIn(ds), msg);
    TiledBrings(sent, out, ds, ts, msg, i);
  }

  lemma {:induction false} TilesDelivered(sent: seq<Sent>, out: seq<Outgoing>, ds: seq<SealedPiece>, rx: Rx, ts: seq<Transmission>,
                                          maxLen: nat, n: nat)
    requires Numbered(sent) && AllCarried(out, ds) && Tiles(out, PiecesIn(ds)) && Conveys(sent, ts, ds)
    requires RxOk(rx) && SlotsFaithful(sent, rx) && n <= FLIGHT && rx.readSeq + n <= |sent|
    requires forall i :: rx.readSeq <= i < rx.readSeq + n ==> InFlight(sent, out, i)
    requires Sendable(sent, ts) && Receivable(rx, sent, ts, maxLen)
    ensures TakeMessages(ReceiveAll(rx, sent, ts, maxLen), n).1 == MessagesOf(sent, rx.readSeq, rx.readSeq + n)
  {
    assert |rx.slots| == FLIGHT;
    hide RxOk, SlotsFaithful, Numbered, Sendable, Receivable, Conveys, AllCarried, Tiles, BroughtWhole, InFlight, TakeMessages,
         ReceiveAll, MessagesOf;
    forall i | rx.readSeq <= i < rx.readSeq + n
      ensures BroughtWhole(sent, ts, i)
    {
      TiledFlightBrings(sent, out, ds, ts, i);
    }
    FlightProgress(rx, sent, ts, maxLen, n);
  }

  /** A sender has finished a pass in which no sealing failed in mid datagram.  Once the records of all its
      datagrams have arrived, among any other acceptable ones, in any order and any number of times, the
      receiver hands out in turn the next messages, as far as they are in the flight. */
  lemma {:induction false} FlightDelivered(s: Sender, rx: Rx, ts: seq<Transmission>, maxLen: nat, n: nat)
    requires s.Valid() && s.At() == Cursor(|s.outgoing|, 0) && NothingDropped(s.attempts) && Numbered(s.sent)
    requires RxOk(rx) && SlotsFaithful(s.sent, rx) && n <= FLIGHT && rx.readSeq + n <= |s.sent|
    requires forall i :: rx.readSeq <= i < rx.readSeq + n ==> InFlight(s.sent, s.outgoing, i)
    requires Sendable(s.sent, ts) && Receivable(rx, s.sent, ts, maxLen)
    requires Conveys(s.sent, ts, FlightPass.Flatten(s.network[s.passStart..]))
    ensures TakeMessages(ReceiveAll(rx, s.sent, ts, maxLen), n).1 == MessagesOf(s.sent, rx.readSeq, rx.readSeq + n)
  {
    assert |rx.slots| == FLIGHT;
    assert PassState(s.outgoing, s.At(), s.attempts, s.network, s.passStart);
    hide Sender.Valid, RxOk, SlotsFaithful, Numbered, Sendable, Receivable, Conveys, AllCarried, Tiles, InFlight, TakeMessages,
         ReceiveAll, MessagesOf, NothingDropped;
    s.WholePass();
    PassCarries(s.outgoing, s.attempts);
    DatagramPieces(s.attempts);
    TilesDelivered(s.sent, s.outgoing, FlightPass.Flatten(s.network[s.passStart..]), rx, ts, maxLen, n);
  }
}
