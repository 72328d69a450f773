/** The handshake transport end to end: a sender, a network that loses, duplicates and reorders, and a
    receiver, through all epochs. */
module Transport {
  import opened Bits
  import opened HandshakeFormat
  import opened Reassembly
  import opened HandshakeReceiver
  import opened NetworkOrder

  datatype Sent = Sent(kind: byte, body: seq<byte>)

  /** The slice of message i the sender puts into one record. */
  function SliceFragment(sent: seq<Sent>, i: nat, from: nat, to: nat): Fragment
    requires i < |sent| && from <= to <= |sent[i].body|
  {
    Fragment(sent[i].kind, |sent[i].body|, i, from, sent[i].body[from..to])
  }

  /** The unfragmented message, as the sender adds it to its transcript (RFC 6347, section 4.2.6). */
  function TranscriptBytes(m: Sent, i: nat): seq<byte> {
    FragmentBytes(Fragment(m.kind, |m.body|, i, 0, m.body))
  }

  /** Messages submitted, records ever put on the wire, the receiver, and what it has processed. */
  datatype World = World(sent: seq<Sent>, wire: set<seq<byte>>, rx: Rx, delivered: seq<Message>)

  datatype Action =
    | Submit(m: Sent)
    | Transmit(i: nat, from: nat, to: nat)
    | Receive(e: Event)

  /** The sequence number space and the 24-bit lengths are not used up. */
  predicate Numbered(sent: seq<Sent>) {
    |sent| < TWO_16 && forall i :: 0 <= i < |sent| ==> |sent[i].body| < TWO_24
  }

  /** What the receiver is done with at a step: the message it had been given, when it moves on. */
  function Processed(rx: Rx, e: Event): seq<Message>
    requires |rx.slots| == FLIGHT
  {
    if e.Next? && rx.hasMessage then (match GetMessage(rx).1 case None => [] case Some(m) => [m]) else []
  }

  /** A handshake record. */
  predicate OfHandshake(e: Event) { (e.Record? || e.Ccs?) && e.kind == RT_HANDSHAKE }

  /** One action; one that is not possible changes nothing.  A record stays on the wire for good: it may
      be received never, once or often, at any time, and in any epoch.  Sequence numbers are 16 bits
      wide, so the sender stops before they are used up. */
  function Perform(w: World, a: Action): (w': World)
    requires |w.rx.slots| == FLIGHT
    ensures |w'.rx.slots| == FLIGHT
  {
    match a
    case Submit(m) => if Numbered(w.sent + [m]) then w.(sent := w.sent + [m]) else w
    case Transmit(i, from, to) =>
      if i < |w.sent| && from <= to <= |w.sent[i].body| then
        w.(wire := w.wire + {FragmentBytes(SliceFragment(w.sent, i, from, to))})
      else w
    case Receive(e) =>
      if OfHandshake(e) && e.s !in w.wire then w
      else w.(rx := StepRx(w.rx, e), delivered := w.delivered + Processed(w.rx, e))
  }

  function Execute(actions: seq<Action>): (w: World)
    ensures |w.rx.slots| == FLIGHT
  {
    if actions == [] then World([], {}, Start(), [])
    else Perform(Execute(actions[..|actions| - 1]), actions[|actions| - 1])
  }

  // ----- the invariant

  /** p is a record the sender may have sent. */
  ghost predicate Genuine(sent: seq<Sent>, p: seq<byte>) {
    exists i: nat, from: nat, to: nat ::
      i < |sent| && from <= to <= |sent[i].body| && p == FragmentBytes(SliceFragment(sent, i, from, to))
  }

  /** Every byte that has arrived for a message is the byte that was sent. */
  ghost predicate Faithful(sent: seq<Sent>, a: Assembly) {
    && a.seq_ < |sent| && a.kind == sent[a.seq_].kind && |a.got| == |sent[a.seq_].body|
    && forall k :: 0 <= k < |a.got| && a.got[k].Some? ==> a.got[k].value == sent[a.seq_].body[k]
  }

  ghost predicate SlotsFaithful(sent: seq<Sent>, rx: Rx) {
    forall i :: 0 <= i < |rx.slots| && rx.slots[i].Some? ==> Faithful(sent, rx.slots[i].value)
  }

  /** What has been delivered is a prefix of what was sent, down to the transcript bytes. */
  ghost predicate DeliveredPrefix(sent: seq<Sent>, delivered: seq<Message>) {
    && |delivered| <= |sent|
    && forall i :: 0 <= i < |delivered| ==>
         delivered[i] == Message(sent[i].kind, sent[i].body, TranscriptBytes(sent[i], i))
  }

  /** The receiver holds and has delivered only what was sent. */
  ghost predicate Follows(sent: seq<Sent>, rx: Rx, delivered: seq<Message>) {
    && Numbered(sent) && RxOk(rx) && rx.readSeq == |delivered|
    && SlotsFaithful(sent, rx) && DeliveredPrefix(sent, delivered)
  }

  ghost predicate Inv(w: World) {
    && (forall p :: p in w.wire ==> Genuine(w.sent, p))
    && Follows(w.sent, w.rx, w.delivered)
  }

  lemma {:induction false} GenuineMore(sent: seq<Sent>, m: Sent, p: seq<byte>)
    requires Genuine(sent, p)
    ensures Genuine(sent + [m], p)
  {
    var i: nat, from: nat, to: nat :|
      i < |sent| && from <= to <= |sent[i].body| && p == FragmentBytes(SliceFragment(sent, i, from, to));
    assert SliceFragment(sent + [m], i, from, to) == SliceFragment(sent, i, from, to);
  }

  /** The sender goes on submitting. */
  lemma {:induction false} FollowsMore(sent: seq<Sent>, rx: Rx, delivered: seq<Message>, m: Sent)
    requires Follows(sent, rx, delivered) && Numbered(sent + [m])
    ensures Follows(sent + [m], rx, delivered)
  {
    hide RxOk, TranscriptBytes;
  }

  /** What the receiver does with a slice of a message that was sent: it goes wrong exactly when the
      message is too long to be accepted, when an encrypted handshake sees another message than the
      next one, and at the one sequence number the filter lets through although the ring is full. */
  lemma {:induction false} GenuineFragment(sent: seq<Sent>, rx: Rx, i: nat, from: nat, to: nat, maxLen: nat)
    requires RxOk(rx) && SlotsFaithful(sent, rx) && |sent| < TWO_16
    requires i < |sent| && from <= to <= |sent[i].body|
    ensures var r := AcceptFragment(rx, SliceFragment(sent, i, from, to), maxLen);
            && (r.None? <==> |sent[i].body| > maxLen || (rx.epoch == 1 && i != rx.readSeq) || i == rx.readSeq + 7)
            && (r.Some? ==> SlotsFaithful(sent, r.value))
  {
    var f := SliceFragment(sent, i, from, to);
    var j := i % FLIGHT;
    assert SlotOk(rx, j);
    if rx.slots[j].Some? && rx.readSeq <= i < rx.readSeq + FLIGHT {
      SameResidueWindow(rx.readSeq, i, rx.slots[j].value.seq_);
    }
    if AcceptFragment(rx, f, maxLen).Some? && rx.readSeq <= i < rx.readSeq + FLIGHT {
      AbsorbFaithful(sent, Begun(rx, f), i, from, to);
    }
  }

  lemma {:induction false} AbsorbFaithful(sent: seq<Sent>, a: Assembly, i: nat, from: nat, to: nat)
    requires i < |sent| && from <= to <= |sent[i].body| && Faithful(sent, a) && a.seq_ == i
    ensures Faithful(sent, Absorb(a, from, sent[i].body[from..to]))
  {
  }

  /** What becomes of any fragment: it is an error when it reaches past its message, when the message is too long,
      contradicts what was received of it, or has a number that is not acceptable in an encrypted handshake or
      exactly seven ahead; it is ignored when its number is past or further ahead. */
  lemma {:induction false} AnyFragment(rx: Rx, f: Fragment, maxLen: nat)
    requires |rx.slots| == FLIGHT
    ensures var r, slot := AcceptFragment(rx, f, maxLen), rx.slots[f.seq_ % 7];
            var near := rx.readSeq <= f.seq_ < rx.readSeq + 7;
            && (r.None? <==>
                  || f.off + |f.body| > f.msgLen || f.msgLen > maxLen || (rx.epoch == 1 && f.seq_ != rx.readSeq)
                  || f.seq_ == rx.readSeq + 7 || (near && slot.Some? && (slot.value.kind != f.kind || |slot.value.got| != f.msgLen)))
            && (r.Some? && !near ==> r.value == rx)
  {
  }

  /** The bytes of some fragments, one after the other. */
  function RecordOf(fs: seq<Fragment>): seq<byte> {
    if fs == [] then [] else FragmentBytes(fs[0]) + RecordOf(fs[1..])
  }

  /** The fragments are taken one by one, up to the first error. */
  function AcceptEach(rx: Rx, fs: seq<Fragment>, maxLen: nat): (Rx, bool)
    requires |rx.slots| == FLIGHT
    decreases |fs|
  {
    if fs == [] then (rx, true)
    else
      match AcceptFragment(rx, fs[0], maxLen)
      case None => (rx, false)
      case Some(rx') => AcceptEach(rx', fs[1..], maxLen)
  }

  /** The length a fragment header ends with. */
  function LengthBytes(t: seq<byte>): nat
    requires |t| >= 12
  {
    var high: nat, middle: nat, low: nat := t[9], t[10], t[11];
    0x1_0000 * high + 0x100 * middle + low
  }

  /** Too few bytes for a header, or for the length in it. */
  predicate Broken(t: seq<byte>) { t != [] && (|t| < 12 || |t| < 12 + LengthBytes(t)) }

  lemma {:induction false} BrokenUnread(t: seq<byte>)
    requires Broken(t)
    ensures ParseFragment(t).Bad?
  {
    if |t| >= 12 {
      var v := t[9..12];
      assert v[..2][..1] == [t[9]] && [t[9]][..0] == [] && v[..2] == [t[9], t[10]];
      assert FromBigEndian([t[9]]) == t[9];
      assert FromBigEndian(v[..2]) == 256 * FromBigEndian(v[..2][..1]) + t[10];
      assert FromBigEndian(v) == 256 * FromBigEndian(v[..2]) + t[11];
    }
  }

  /** A record may hold any number of fragments, which are taken one by one; a broken rest is an error after them. */
  lemma {:induction false} ManyFragments(rx: Rx, fs: seq<Fragment>, t: seq<byte>, maxLen: nat)
    requires |rx.slots| == FLIGHT && (forall k :: 0 <= k < |fs| ==> Encodable(fs[k])) && (t == [] || Broken(t))
    ensures var (rx', ok) := AcceptEach(rx, fs, maxLen);
            AcceptRecord(rx, RecordOf(fs) + t, maxLen) == (rx', ok && t == [])
    decreases |fs|
  {
    if fs == [] {
      assert RecordOf(fs) + t == t;
      if t != [] { BrokenUnread(t); }
      return;
    }
    var rest := RecordOf(fs[1..]) + t;
    assert RecordOf(fs) + t == FragmentBytes(fs[0]) + rest;
    FragmentRoundTrip(fs[0], rest);
    hide FragmentBytes, ParseFragment, AcceptFragment, Encodable, Broken;
    assert (FragmentBytes(fs[0]) + rest)[HM_HEADER + |fs[0].body|..] == rest;
    var r := AcceptFragment(rx, fs[0], maxLen);
    if r.Some? { ManyFragments(r.value, fs[1..], t, maxLen); }
  }

  /** A record holding one fragment. */
  lemma {:induction false} OneFragment(rx: Rx, f: Fragment, maxLen: nat)
    requires |rx.slots| == FLIGHT && Encodable(f)
    ensures AcceptRecord(rx, FragmentBytes(f), maxLen) ==
            if AcceptFragment(rx, f, maxLen).None? then (rx, false) else (AcceptFragment(rx, f, maxLen).value, true)
  {
    var s := FragmentBytes(f);
    FragmentRoundTrip(f, []);
    assert s + [] == s;
    hide FragmentBytes, ParseFragment, AcceptFragment;
    assert s[HM_HEADER + |f.body|..] == [];
  }

  /** A genuine handshake record is taken up faithfully. */
  lemma {:induction false} RecordFollows(sent: seq<Sent>, rx: Rx, p: seq<byte>, maxLen: nat)
    requires Numbered(sent) && RxOk(rx) && SlotsFaithful(sent, rx) && Genuine(sent, p)
    ensures var rx' := AcceptRecord(rx, p, maxLen).0;
            SlotsFaithful(sent, rx') && rx'.readSeq == rx.readSeq
  {
    var i: nat, from: nat, to: nat :|
      i < |sent| && from <= to <= |sent[i].body| && p == FragmentBytes(SliceFragment(sent, i, from, to));
    var f := SliceFragment(sent, i, from, to);
    RecordKeeps(rx, p, maxLen);
    OneFragment(rx, f, maxLen);
    GenuineFragment(sent, rx, i, from, to, maxLen);
    hide RxOk, AcceptRecord, AcceptFragment, Genuine, FragmentBytes;
  }

  /** An opened record of any type, if it is genuine should it be a handshake record. */
  lemma {:induction false} OpenFollows(sent: seq<Sent>, rx: Rx, kind: byte, s: seq<byte>, nullCipher: bool, maxLen: nat)
    requires Numbered(sent) && RxOk(rx) && SlotsFaithful(sent, rx) && (kind == RT_HANDSHAKE ==> Genuine(sent, s))
    ensures var rx' := OpenHandshake(rx, kind, s, nullCipher, maxLen).0;
            SlotsFaithful(sent, rx') && rx'.readSeq == rx.readSeq
  {
    hide RxOk, AcceptRecord, Genuine, Faithful;
    if kind == RT_HANDSHAKE { RecordFollows(sent, rx, s, maxLen); }
  }

  /** The message in the current slot, once complete, is the next one that was sent. */
  lemma {:induction false} CurrentSent(sent: seq<Sent>, rx: Rx)
    requires RxOk(rx) && SlotsFaithful(sent, rx) && CurrentComplete(rx)
    ensures rx.readSeq < |sent|
    ensures var m := sent[rx.readSeq];
            GetMessage(rx).1 == Some(Message(m.kind, m.body, TranscriptBytes(m, rx.readSeq)))
  {
    var a := Current(rx).value;
    CurrentSeq(rx);
    assert Faithful(sent, a);
    assert Body(a) == sent[a.seq_].body by {
      forall k | 0 <= k < |a.got| ensures Body(a)[k] == sent[a.seq_].body[k] { assert a.got[k] != None; }
    }
    hide RxOk, Faithful;
  }

  lemma {:induction false} NextFollows(sent: seq<Sent>, rx: Rx, delivered: seq<Message>)
    requires Follows(sent, rx, delivered) && rx.hasMessage
    ensures Follows(sent, NextMessage(rx), delivered + Processed(rx, Next))
  {
    assert CurrentComplete(rx);
    CurrentSent(sent, rx);
    NextKeeps(rx);
    hide RxOk, TranscriptBytes, Faithful;
  }

  /** Every step of the receiver, in every epoch, follows the sender, as long as the handshake records it
      is given are genuine. */
  lemma {:induction false} StepFollows(sent: seq<Sent>, rx: Rx, delivered: seq<Message>, e: Event)
    requires Follows(sent, rx, delivered) && (OfHandshake(e) ==> Genuine(sent, e.s))
    ensures |rx.slots| == FLIGHT && Follows(sent, StepRx(rx, e), delivered + Processed(rx, e))
  {
    assert |rx.slots| == FLIGHT;
    StepKeeps(rx, e);
    hide RxOk, Genuine, OpenHandshake, CurrentComplete, Faithful, TranscriptBytes;
    assert delivered + [] == delivered;
    match e
    case Record(kind, s, nullCipher, maxLen) => OpenFollows(sent, rx, kind, s, nullCipher, maxLen);
    case Ccs(kind, s, nullCipher, maxLen) => OpenFollows(sent, rx, kind, s, nullCipher, maxLen);
    case Get =>
    case Next => if rx.hasMessage { NextFollows(sent, rx, delivered); }
    case Rekey =>
  }

  /** Every action keeps the invariant. */
  lemma {:induction false} PerformKeeps(w: World, a: Action)
    requires |w.rx.slots| == FLIGHT && Inv(w)
    ensures Inv(Perform(w, a))
  {
    hide Follows, Genuine, StepRx, Processed, Numbered;
    match a
    case Submit(m) =>
      if Numbered(w.sent + [m]) {
        FollowsMore(w.sent, w.rx, w.delivered, m);
        forall p | p in w.wire ensures Genuine(w.sent + [m], p) { GenuineMore(w.sent, m, p); }
      }
    case Transmit(i, from, to) =>
      if i < |w.sent| && from <= to <= |w.sent[i].body| { SliceGenuine(w.sent, i, from, to); }
    case Receive(e) => if OfHandshake(e) ==> e.s in w.wire { StepFollows(w.sent, w.rx, w.delivered, e); }
  }

  lemma {:induction false} SliceGenuine(sent: seq<Sent>, i: nat, from: nat, to: nat)
    requires i < |sent| && from <= to <= |sent[i].body|
    ensures Genuine(sent, FragmentBytes(SliceFragment(sent, i, from, to)))
  {
  }

  /** Over every run, whatever is lost, duplicated and reordered, through any number of epochs, the
      messages delivered are a prefix of those sent, and their raw bytes are the sender's transcript
      bytes. */
  lemma {:induction false} EndToEnd(actions: seq<Action>)
    ensures Inv(Execute(actions)) && DeliveredPrefix(Execute(actions).sent, Execute(actions).delivered)
  {
    if actions == [] {
      assert forall i :: 0 <= i < FLIGHT ==> SlotOk(Start(), i);
    } else {
      EndToEnd(actions[..|actions| - 1]);
      PerformKeeps(Execute(actions[..|actions| - 1]), actions[|actions| - 1]);
    }
  }

  // ----- progress

  /** A record on the wire: bytes from to to of message i. */
  datatype Transmission = Transmission(i: nat, from: nat, to: nat)

  ghost predicate Sendable(sent: seq<Sent>, ts: seq<Transmission>) {
    forall j :: 0 <= j < |ts| ==> ts[j].i < |sent| && ts[j].from <= ts[j].to <= |sent[ts[j].i].body|
  }

  /** None of the records is one GenuineFragment says goes wrong. */
  ghost predicate Receivable(rx: Rx, sent: seq<Sent>, ts: seq<Transmission>, maxLen: nat)
    requires Sendable(sent, ts)
  {
    forall j :: 0 <= j < |ts| ==>
      && |sent[ts[j].i].body| <= maxLen && ts[j].i != rx.readSeq + FLIGHT && (rx.epoch == 1 ==> ts[j].i == rx.readSeq)
  }

  /** The receiver after some records of the sender's, in the order they arrive. */
  function ReceiveAll(rx: Rx, sent: seq<Sent>, ts: seq<Transmission>, maxLen: nat): (rx': Rx)
    requires |rx.slots| == FLIGHT && Sendable(sent, ts)
    ensures |rx'.slots| == FLIGHT
  {
    if ts == [] then rx
    else
      var t := ts[|ts| - 1];
      var before := ReceiveAll(rx, sent, ts[..|ts| - 1], maxLen);
      AcceptRecord(before, FragmentBytes(SliceFragment(sent, t.i, t.from, t.to)), maxLen).0
  }

  /** The ring has begun message i, and holds its byte k, if it has one. */
  predicate Holds(rx: Rx, i: nat, k: nat)
    requires |rx.slots| == FLIGHT
  {
    var slot := rx.slots[i % FLIGHT];
    slot.Some? && slot.value.seq_ == i && (k < |slot.value.got| ==> slot.value.got[k].Some?)
  }

  lemma {:induction false} FragmentHolds(rx: Rx, f: Fragment, maxLen: nat, i: nat, k: nat)
    requires RxOk(rx) && AcceptFragment(rx, f, maxLen).Some? && rx.readSeq <= i < rx.readSeq + FLIGHT
    ensures var rx' := AcceptFragment(rx, f, maxLen).value;
            Holds(rx, i, k) || (f.seq_ == i && (f.off <= k < f.off + |f.body| || k >= f.msgLen)) ==> Holds(rx', i, k)
  {
    var rx' := AcceptFragment(rx, f, maxLen).value;
    if rx.readSeq <= f.seq_ < rx.readSeq + FLIGHT && f.seq_ % FLIGHT == i % FLIGHT {
      SameResidueWindow(rx.readSeq, f.seq_, i);
      var a := Begun(rx, f);
      assert SlotOk(rx, i % FLIGHT);
      if rx.slots[i % FLIGHT].Some? { SameResidueWindow(rx.readSeq, a.seq_, i); }
      if Complete(a) && k < |a.got| { assert a.got[k] != None; }
    }
  }

  /** t brings byte k of message n; for a position past its end any record of it will do. */
  predicate Brings(sent: seq<Sent>, t: Transmission, n: nat, k: nat)
    requires n < |sent|
  {
    t.i == n && (t.from <= k < t.to || k >= |sent[n].body|)
  }

  ghost predicate Brought(sent: seq<Sent>, ts: seq<Transmission>, n: nat, k: nat)
    requires n < |sent|
  {
    exists j :: 0 <= j < |ts| && Brings(sent, ts[j], n, k)
  }

  /** Every byte of message n is brought, and some record of it if it has none. */
  ghost predicate BroughtWhole(sent: seq<Sent>, ts: seq<Transmission>, n: nat)
    requires n < |sent|
  {
    forall k: nat :: k <= |sent[n].body| ==> Brought(sent, ts, n, k)
  }

  lemma {:induction false} BroughtMore(sent: seq<Sent>, ts: seq<Transmission>, n: nat, k: nat)
    requires n < |sent| && ts != []
    ensures Brought(sent, ts, n, k) ==> Brought(sent, ts[..|ts| - 1], n, k) || Brings(sent, ts[|ts| - 1], n, k)
  {
    if Brought(sent, ts, n, k) {
      var j :| 0 <= j < |ts| && Brings(sent, ts[j], n, k);
      if j < |ts| - 1 { assert ts[..|ts| - 1][j] == ts[j]; }
    }
  }

  lemma {:induction false} ReceivedHolds(rx: Rx, sent: seq<Sent>, ts: seq<Transmission>, maxLen: nat, i: nat, k: nat)
    requires |rx.slots| == FLIGHT && RxOk(rx) && SlotsFaithful(sent, rx) && Numbered(sent)
    requires rx.readSeq <= i < rx.readSeq + FLIGHT && i < |sent|
    requires Sendable(sent, ts) && Receivable(rx, sent, ts, maxLen)
    ensures var rx' := ReceiveAll(rx, sent, ts, maxLen);
            && RxOk(rx') && SlotsFaithful(sent, rx') && rx' == rx.(slots := rx'.slots)
            && (Brought(sent, ts, i, k) ==> Holds(rx', i, k))
  {
    hide RxOk, SlotsFaithful, Holds, AcceptRecord, AcceptFragment, FragmentBytes;
    if ts == [] { return; }
    var n := |ts| - 1;
    var t, before := ts[n], ts[..n];
    assert Sendable(sent, before) && Receivable(rx, sent, before, maxLen);
    ReceivedHolds(rx, sent, before, maxLen, i, k);
    BroughtMore(sent, ts, i, k);
    var mid := ReceiveAll(rx, sent, before, maxLen);
    var f := SliceFragment(sent, t.i, t.from, t.to);
    GenuineFragment(sent, mid, t.i, t.from, t.to, maxLen);
    OneFragment(mid, f, maxLen);
    FragmentKeeps(mid, f, maxLen);
    FragmentHolds(mid, f, maxLen, i, k);
  }

  /** Message i has arrived whole. */
  predicate Arrived(sent: seq<Sent>, rx: Rx, i: nat)
    requires |rx.slots| == FLIGHT
  {
    var slot := rx.slots[i % FLIGHT];
    slot.Some? && slot.value.seq_ == i && Complete(slot.value)
  }

  /** Once records covering a message of the window have arrived, among any others and in any order, it is
      complete. */
  lemma {:induction false} ReceivedArrives(rx: Rx, sent: seq<Sent>, ts: seq<Transmission>, maxLen: nat, i: nat)
    requires RxOk(rx) && SlotsFaithful(sent, rx) && Numbered(sent)
    requires rx.readSeq <= i < rx.readSeq + FLIGHT && i < |sent|
    requires Sendable(sent, ts) && Receivable(rx, sent, ts, maxLen) && BroughtWhole(sent, ts, i)
    ensures var rx' := ReceiveAll(rx, sent, ts, maxLen);
            RxOk(rx') && SlotsFaithful(sent, rx') && rx' == rx.(slots := rx'.slots) && Arrived(sent, rx', i)
  {
    var rx' := ReceiveAll(rx, sent, ts, maxLen);
    var len := |sent[i].body|;
    ReceivedHolds(rx, sent, ts, maxLen, i, len);
    assert Faithful(sent, rx'.slots[i % FLIGHT].value);
    hide RxOk, SlotsFaithful, ReceiveAll;
    forall k: nat | k < len ensures rx'.slots[i % FLIGHT].value.got[k].Some? {
      ReceivedHolds(rx, sent, ts, maxLen, i, k);
      assert Holds(rx', i, k);
    }
  }

  /** In particular, the next message can be delivered. */
  lemma {:induction false} Progress(rx: Rx, sent: seq<Sent>, ts: seq<Transmission>, maxLen: nat)
    requires RxOk(rx) && SlotsFaithful(sent, rx) && Numbered(sent) && rx.readSeq < |sent|
    requires Sendable(sent, ts) && Receivable(rx, sent, ts, maxLen)
    requires forall k: nat :: k <= |sent[rx.readSeq].body| ==> Brought(sent, ts, rx.readSeq, k)
    ensures CurrentComplete(ReceiveAll(rx, sent, ts, maxLen))
  {
    ReceivedArrives(rx, sent, ts, maxLen, rx.readSeq);
  }

  // ----- a whole flight

  /** Getting and finishing with up to n messages. */
  function TakeMessages(rx: Rx, n: nat): (Rx, seq<Message>)
    requires |rx.slots| == FLIGHT
    decreases n
  {
    if n == 0 then (rx, [])
    else
      match GetMessage(rx).1
      case None => (rx, [])
      case Some(m) =>
        var (rx', ms) := TakeMessages(StepRx(StepRx(rx, Get), Next), n - 1);
        (rx', [m] + ms)
  }

  /** Messages from to to as the receiver hands them out. */
  function MessagesOf(sent: seq<Sent>, from: nat, to: nat): (ms: seq<Message>)
    requires from <= to <= |sent|
    ensures |ms| == to - from
  {
    seq(to - from, i requires 0 <= i < to - from =>
      Message(sent[from + i].kind, sent[from + i].body, TranscriptBytes(sent[from + i], from + i)))
  }

  lemma {:induction false} OtherResidue(a: nat, b: nat)
    requires a < b < a + FLIGHT
    ensures a % FLIGHT != b % FLIGHT
  {
  }

  /** The next message, if it has arrived, is handed out, and the others stay. */
  lemma {:induction false} ArrivedNext(rx: Rx, sent: seq<Sent>)
    requires RxOk(rx) && SlotsFaithful(sent, rx) && Numbered(sent) && rx.readSeq < |sent| && Arrived(sent, rx, rx.readSeq)
    ensures GetMessage(rx).1 == Some(MessagesOf(sent, rx.readSeq, rx.readSeq + 1)[0])
    ensures var rx' := StepRx(StepRx(rx, Get), Next);
            && RxOk(rx') && SlotsFaithful(sent, rx') && rx'.readSeq == rx.readSeq + 1
            && forall i :: rx.readSeq < i < rx.readSeq + FLIGHT && Arrived(sent, rx, i) ==> Arrived(sent, rx', i)
  {
    assert |rx.slots| == FLIGHT;
    hide RxOk, TranscriptBytes, SlotsFaithful, Complete, Body, RawBytes;
    CurrentSent(sent, rx);
    var rx1 := GetMessage(rx).0;
    FlagsKeep(rx, rx1);
    NextKeeps(rx1);
    var rx' := NextMessage(rx1);
    assert StepRx(StepRx(rx, Get), Next) == rx';
    assert rx'.readSeq == rx.readSeq + 1 && rx'.slots == rx.slots[rx.readSeq % FLIGHT := None];
    hide NextMessage, GetMessage;
    SlotsCleared(sent, rx, rx', rx.readSeq % FLIGHT);
    forall i | rx.readSeq < i < rx.readSeq + FLIGHT && Arrived(sent, rx, i)
      ensures Arrived(sent, rx', i)
    {
      OtherResidue(rx.readSeq, i);
    }
  }

  lemma {:induction false} SlotsCleared(sent: seq<Sent>, rx: Rx, rx': Rx, i: nat)
    requires SlotsFaithful(sent, rx) && i < |rx.slots| && rx'.slots == rx.slots[i := None]
    ensures SlotsFaithful(sent, rx')
  {
    hide Faithful;
  }

  /** Messages that have all arrived are handed out one after the other. */
  lemma {:induction false} ArrivedTaken(rx: Rx, sent: seq<Sent>, n: nat)
    requires RxOk(rx) && SlotsFaithful(sent, rx) && Numbered(sent) && n <= FLIGHT && rx.readSeq + n <= |sent|
    requires forall i :: rx.readSeq <= i < rx.readSeq + n ==> Arrived(sent, rx, i)
    ensures TakeMessages(rx, n).1 == MessagesOf(sent, rx.readSeq, rx.readSeq + n)
    decreases n
  {
    assert |rx.slots| == FLIGHT;
    hide RxOk, SlotsFaithful, Arrived, Numbered, GetMessage, StepRx, TranscriptBytes;
    if n == 0 { return; }
    ArrivedNext(rx, sent);
    var rx' := StepRx(StepRx(rx, Get), Next);
    ArrivedTaken(rx', sent, n - 1);
    MessagesSplit(sent, rx.readSeq, rx.readSeq + n);
    hide MessagesOf;
  }

  lemma {:induction false} MessagesSplit(sent: seq<Sent>, from: nat, to: nat)
    requires from < to <= |sent|
    ensures MessagesOf(sent, from, to) == [MessagesOf(sent, from, from + 1)[0]] + MessagesOf(sent, from + 1, to)
  {
    hide TranscriptBytes;
  }

  /** Once records covering the next n messages have arrived, in any order, they are handed out in turn. */
  lemma {:induction false} FlightProgress(rx: Rx, sent: seq<Sent>, ts: seq<Transmission>, maxLen: nat, n: nat)
    requires RxOk(rx) && SlotsFaithful(sent, rx) && Numbered(sent) && n <= FLIGHT && rx.readSeq + n <= |sent|
    requires Sendable(sent, ts) && Receivable(rx, sent, ts, maxLen)
    requires forall i :: rx.readSeq <= i < rx.readSeq + n ==> BroughtWhole(sent, ts, i)
    ensures TakeMessages(ReceiveAll(rx, sent, ts, maxLen), n).1 == MessagesOf(sent, rx.readSeq, rx.readSeq + n)
  {
    if n == 0 { return; }
    hide RxOk, SlotsFaithful, ReceiveAll, Arrived, BroughtWhole, TakeMessages, Sendable, Receivable;
    var rx' := ReceiveAll(rx, sent, ts, maxLen);
    forall i | rx.readSeq <= i < rx.readSeq + n
      ensures Arrived(sent, rx', i)
    {
      ReceivedArrives(rx, sent, ts, maxLen, i);
    }
    ReceivedArrives(rx, sent, ts, maxLen, rx.readSeq);
    ArrivedTaken(rx', sent, n);
  }
}
