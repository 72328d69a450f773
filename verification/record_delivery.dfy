/** From the bytes on the wire to the messages handed out: a clean pass, read record by record. */
module RecordDelivery {
  import opened Bits
  import opened NetworkOrder
  import opened HandshakeFormat
  import opened RecordReader
  import opened RecordWriter
  import opened HandshakeReceiver
  import opened Flight
  import opened FlightPass
  import opened SenderHistory
  import opened Transport
  import opened FlightSender
  import opened FlightDelivery
  import opened Authenticity

  // ----- reading records

  /** The receiving side: the numbers recorded in the current epoch, the ring, and whether there was a fatal
      error. */
  datatype Reading = Reading(recorded: set<nat>, rx: Rx, failed: bool)

  /** The record at the front of a datagram is opened and handed to the handshake; an alert goes elsewhere. */
  ghost function OpenNext(keys: Keys, r: Reading, s: seq<byte>, maxLen: nat): (r': Reading)
    requires |r.rx.slots| == FLIGHT
    ensures |r'.rx.slots| == FLIGHT
  {
    match Judge(r.rx.epoch, keys, r.recorded, s)
    case Drop => r
    case Overflow => r.(failed := true)
    case Accept(n, kind, body) =>
      if kind == RT_ALERT then r.(recorded := r.recorded + {n})
      else
        var (rx, outcome) := OpenHandshake(r.rx, kind, body, keys.nullCipher, maxLen);
        Reading(r.recorded + {n}, rx, outcome.Failure?)
  }

  /** An alert, of type 21, does not reach the handshake. */
  lemma {:induction false} AlertsAside(keys: Keys, r: Reading, s: seq<byte>, maxLen: nat)
    requires |r.rx.slots| == FLIGHT && Judge(r.rx.epoch, keys, r.recorded, s).Accept? && Judge(r.rx.epoch, keys, r.recorded, s).kind == 21
    ensures OpenNext(keys, r, s, maxLen) == r.(recorded := r.recorded + {Judge(r.rx.epoch, keys, r.recorded, s).n})
  {
    hide Judge;
  }

  /** How much of the datagram that takes. */
  function Past(keys: Keys, s: seq<byte>): (n: nat)
    ensures n <= |s| && (s != [] ==> n > 0)
  {
    var h := ParseHeader(s);
    if h.Malformed? || !VersionOk(keys, h.version) then |s| else RT_HEADER + |h.body|
  }

  /** A whole datagram, record by record. */
  ghost function OpenDatagram(keys: Keys, r: Reading, s: seq<byte>, maxLen: nat): (r': Reading)
    requires |r.rx.slots| == FLIGHT
    ensures |r'.rx.slots| == FLIGHT
    decreases |s|
  {
    if s == [] || r.failed then r else OpenDatagram(keys, OpenNext(keys, r, s, maxLen), s[Past(keys, s)..], maxLen)
  }

  /** The datagrams of a pass as they arrive: gs tells which one comes when. */
  ghost function OpenArriving(keys: Keys, r: Reading, packets: seq<seq<SealedPiece>>, gs: seq<nat>, maxLen: nat): (r': Reading)
    requires |r.rx.slots| == FLIGHT && forall j :: 0 <= j < |gs| ==> gs[j] < |packets|
    ensures |r'.rx.slots| == FLIGHT
    decreases |gs|
  {
    if gs == [] then r
    else
      var n := |gs| - 1;
      OpenDatagram(keys, OpenArriving(keys, r, packets, gs[..n], maxLen), RecordsOf(packets[gs[n]]), maxLen)
  }

  // ----- what is asked of a pass

  /** The record has a version the reader takes. */
  predicate GoodVersion(keys: Keys, d: SealedPiece) {
    |d.record| >= 3 && if keys.nullCipher then d.record[1] == 0xfe else VersionBytes(d.record) == keys.version
  }

  /** Records short enough to be read; those of the reader's epoch have numbers within 64 of each other, all
      different, none of them recorded and none too old; and a ChangeCipherSpec among them is not encrypted. */
  ghost predicate Readable(keys: Keys, epoch: nat, recorded: set<nat>, ds: seq<SealedPiece>) {
    && (forall q :: 0 <= q < |ds| ==> WithinLimits(ds[q]) && GoodVersion(keys, ds[q]))
    && (forall q :: 0 <= q < |ds| && ds[q].pair.0 == epoch ==>
          Fresh(recorded, NumberOf(ds[q])) && (ds[q].kind == 22 || keys.nullCipher))
    && (forall p, q :: 0 <= p < q < |ds| && ds[p].pair.0 == ds[q].pair.0 == epoch ==>
          ds[p].pair.1 != ds[q].pair.1 && ds[p].pair.1 < ds[q].pair.1 + 64 && ds[q].pair.1 < ds[p].pair.1 + 64)
  }

  /** The ring can take the messages of its epoch. */
  ghost predicate Takes(rx: Rx, sent: seq<Sent>, out: seq<Outgoing>, maxLen: nat) {
    forall msg: nat, i: nat :: IsQueued(sent, out, msg, i) && out[msg].epoch == rx.epoch ==>
      |sent[i].body| <= maxLen && i != rx.readSeq + 7 && (rx.epoch == 1 ==> i == rx.readSeq)
  }

  // ----- one record

  /** The ring has what the piece brings. */
  ghost predicate Got(sent: seq<Sent>, out: seq<Outgoing>, rx: Rx, d: SealedPiece)
    requires |rx.slots| == FLIGHT
  {
    && (d.kind == KIND_CCS ==> rx.hasCcs)
    && forall i: nat, k: nat :: rx.readSeq <= i < rx.readSeq + FLIGHT && Wanted(sent, out, d, i, k) ==> Holds(rx, i, k)
  }

  /** The piece holds byte k of message i, or is of it and k is past its end. */
  predicate Wanted(sent: seq<Sent>, out: seq<Outgoing>, d: SealedPiece, i: nat, k: nat) {
    IsQueued(sent, out, d.piece.msg, i) && (d.piece.from <= k < d.piece.to || k >= |sent[i].body|)
  }

  /** rx' is rx after some pieces: nothing is lost. */
  ghost predicate Grows(rx: Rx, rx': Rx) {
    && |rx.slots| == |rx'.slots| == FLIGHT && rx'.readSeq == rx.readSeq && rx'.epoch == rx.epoch && (rx.hasCcs ==> rx'.hasCcs)
    && forall i: nat, k: nat :: rx.readSeq <= i < rx.readSeq + FLIGHT && Holds(rx, i, k) ==> Holds(rx', i, k)
  }

  lemma {:induction false} GotGrows(sent: seq<Sent>, out: seq<Outgoing>, rx: Rx, rx': Rx, d: SealedPiece)
    requires Grows(rx, rx') && Got(sent, out, rx, d)
    ensures Got(sent, out, rx', d)
  {
    hide Holds, Wanted;
  }

  lemma {:induction false} QueuedAs(sent: seq<Sent>, out: seq<Outgoing>, msg: nat) returns (i: nat)
    requires msg < |out| && QueuedFrom(sent, out[msg]) && !out[msg].isCcs
    ensures IsQueued(sent, out, msg, i)
  {
    i :| i < |sent| && out[msg].data == MessageBytes(sent, i);
  }

  /** A message is queued as one number only. */
  lemma {:induction false} QueuedOnce(sent: seq<Sent>, out: seq<Outgoing>, d: SealedPiece, i: nat, j: nat)
    requires Numbered(sent) && Carries(out, d) && IsQueued(sent, out, d.piece.msg, i) && IsQueued(sent, out, d.piece.msg, j)
    ensures i == j
  {
    hide Carries, IsQueued, Matches, Numbered;
    PieceOfMessage(sent, out, d, i);
    PieceOfMessage(sent, out, d, j);
    OneSlice(sent, Transmission(i, d.piece.from, d.piece.to), Transmission(j, d.piece.from, d.piece.to), d);
  }

  /** A handshake piece of the ring's epoch is taken up. */
  lemma {:induction false} PieceTaken(sent: seq<Sent>, out: seq<Outgoing>, rx: Rx, d: SealedPiece, i: nat, maxLen: nat)
    requires Numbered(sent) && RxOk(rx) && SlotsFaithful(sent, rx) && Carries(out, d) && IsQueued(sent, out, d.piece.msg, i)
    requires |sent[i].body| <= maxLen && i != rx.readSeq + FLIGHT && (rx.epoch == 1 ==> i == rx.readSeq)
    ensures |rx.slots| == FLIGHT && d.kind == KIND_HANDSHAKE
    ensures var (rx', ok) := AcceptRecord(rx, d.plain, maxLen);
            ok && RxOk(rx') && SlotsFaithful(sent, rx') && rx' == rx.(slots := rx'.slots) && Grows(rx, rx') && Got(sent, out, rx', d)
  {
    assert |rx.slots| == FLIGHT;
    PieceOfMessage(sent, out, d, i);
    var from, to := d.piece.from, d.piece.to;
    assert i < |sent| && from <= to <= |sent[i].body|;
    var f := SliceFragment(sent, i, from, to);
    GenuineFragment(sent, rx, i, from, to, maxLen);
    OneFragment(rx, f, maxLen);
    FragmentKeeps(rx, f, maxLen);
    var rx' := AcceptRecord(rx, d.plain, maxLen).0;
    forall j: nat, k: nat | rx.readSeq <= j < rx.readSeq + FLIGHT
      ensures Holds(rx, j, k) ==> Holds(rx', j, k)
      ensures Wanted(sent, out, d, j, k) ==> Holds(rx', j, k)
    {
      FragmentHolds(rx, f, maxLen, j, k);
      if Wanted(sent, out, d, j, k) { QueuedOnce(sent, out, d, i, j); }
    }
    hide RxOk, SlotsFaithful, AcceptRecord, AcceptFragment, FragmentBytes, Holds, Carries, IsQueued;
  }

  /** Any piece of the ring's epoch is taken up; a ChangeCipherSpec raises the flag. */
  lemma {:induction false} RecordTaken(sent: seq<Sent>, out: seq<Outgoing>, rx: Rx, d: SealedPiece, nullCipher: bool, maxLen: nat)
    requires Numbered(sent) && RxOk(rx) && SlotsFaithful(sent, rx) && Carries(out, d) && Takes(rx, sent, out, maxLen)
    requires QueuedFrom(sent, out[d.piece.msg]) && out[d.piece.msg].epoch == rx.epoch && (d.kind == 22 || nullCipher)
    ensures |rx.slots| == FLIGHT
    ensures var (rx', r) := OpenHandshake(rx, d.kind, d.plain, nullCipher, maxLen);
            r == Outcome.Success && RxOk(rx') && SlotsFaithful(sent, rx') && Grows(rx, rx') && Got(sent, out, rx', d)
  {
    assert |rx.slots| == FLIGHT;
    var m := out[d.piece.msg];
    if m.isCcs {
      var rx' := rx.(hasCcs := true);
      FlagsKeep(rx, rx');
      assert forall i, k :: !Wanted(sent, out, d, i, k);
      CcsFaithful(sent, rx);
    } else {
      var i := QueuedAs(sent, out, d.piece.msg);
      PieceTaken(sent, out, rx, d, i, maxLen);
    }
    hide RxOk, SlotsFaithful, AcceptRecord, Holds, Wanted;
  }

  lemma {:induction false} CcsFaithful(sent: seq<Sent>, rx: Rx)
    requires SlotsFaithful(sent, rx)
    ensures SlotsFaithful(sent, rx.(hasCcs := true))
  {
    hide Faithful;
  }

  // ----- a datagram

  /** Part of a pass has been read: what was recorded since the beginning are numbers of its records, and what
      those brought is there. */
  ghost predicate Midway(sent: seq<Sent>, out: seq<Outgoing>, ds: seq<SealedPiece>, start: Reading, r: Reading) {
    && RxOk(r.rx) && SlotsFaithful(sent, r.rx) && Grows(start.rx, r.rx) && !r.failed
    && (forall n :: n in r.recorded ==> n in start.recorded || Numbers(ds, start.rx.epoch, n))
    && forall q :: 0 <= q < |ds| && ds[q].pair.0 == start.rx.epoch && NumberOf(ds[q]) in r.recorded ==> Got(sent, out, r.rx, ds[q])
  }

  ghost predicate Numbers(ds: seq<SealedPiece>, epoch: nat, n: nat) {
    exists q :: 0 <= q < |ds| && ds[q].pair.0 == epoch && NumberOf(ds[q]) == n
  }

  /** The piece is one of the queue, sealed under the keys of the epoch of its message. */
  ghost predicate Fitting(sent: seq<Sent>, out: seq<Outgoing>, keyring: seq<SealKeys>, d: SealedPiece) {
    && Carries(out, d) && QueuedFrom(sent, out[d.piece.msg]) && d.pair.0 == out[d.piece.msg].epoch && SealedUnder(keyring, d)
  }

  ghost predicate AllFitting(sent: seq<Sent>, out: seq<Outgoing>, keyring: seq<SealKeys>, ds: seq<SealedPiece>) {
    forall q :: 0 <= q < |ds| ==> Fitting(sent, out, keyring, ds[q])
  }

  /** What the results ask of a pass, and of the receiver before it. */
  ghost predicate Legible(sent: seq<Sent>, out: seq<Outgoing>, keyring: seq<SealKeys>, keys: Keys, ds: seq<SealedPiece>,
                          start: Reading, maxLen: nat) {
    && Numbered(sent) && AllFitting(sent, out, keyring, ds) && |keyring| <= 65536
    && start.rx.epoch < |keyring| && Paired(keyring[start.rx.epoch], keys)
    && Readable(keys, start.rx.epoch, start.recorded, ds) && Takes(start.rx, sent, out, maxLen)
  }

  lemma {:induction false} VersionInRecord(d: SealedPiece, version: nat, keys: Keys)
    requires d.record == RecordBytes(d.kind, version, d.pair, d.cipher) && version < 65536 && GoodVersion(keys, d)
    ensures VersionFits(keys, version)
  {
    var v := BigEndian(version, 2);
    assert v == BigEndian(version / 256, 1) + [version % 256];
    assert BigEndian(version / 256, 1) == [] + [version / 256 % 256];
    assert d.record[1] == v[0] && d.record[2] == v[1];
  }

  lemma {:induction false} NumberSplit(d: SealedPiece, e: SealedPiece)
    requires d.pair.0 == e.pair.0 && d.pair.1 != e.pair.1
    ensures NumberOf(d) != NumberOf(e)
  {
  }

  /** No number of the pass is too old after others of it. */
  lemma {:induction false} StaysFresh(ds: seq<SealedPiece>, keys: Keys, start: Reading, recorded: set<nat>, q: nat)
    requires Readable(keys, start.rx.epoch, start.recorded, ds) && q < |ds| && ds[q].pair.0 == start.rx.epoch
    requires forall n :: n in recorded ==> n in start.recorded || Numbers(ds, start.rx.epoch, n)
    requires NumberOf(ds[q]) !in recorded
    ensures Fresh(recorded, NumberOf(ds[q]))
  {
    forall n | n in recorded
      ensures n < NumberOf(ds[q]) + 64
    {
      if n !in start.recorded {
        var p :| 0 <= p < |ds| && ds[p].pair.0 == start.rx.epoch && NumberOf(ds[p]) == n;
        assert p != q;
      }
    }
  }

  /** A record that is dropped changes nothing. */
  lemma {:induction false} RecordDropped(keys: Keys, r: Reading, d: SealedPiece, version: nat, s: seq<byte>, maxLen: nat)
    requires |r.rx.slots| == FLIGHT && InFront(d, s) && d.record == RecordBytes(d.kind, version, d.pair, d.cipher)
    requires version < 65536 && d.pair.0 < 65536 && d.pair.1 < TWO_48 && WithinLimits(d) && VersionFits(keys, version)
    requires d.pair.0 != r.rx.epoch || !Fresh(r.recorded, NumberOf(d))
    ensures OpenNext(keys, r, s, maxLen) == r && Past(keys, s) == |d.record|
  {
    FrontParses(d, version, keys, s);
    EpochPart(d.pair.0, d.pair.1);
    StaleDropped(r.rx.epoch, keys, r.recorded, s);
    hide ParseHeader, VersionOk, Judge;
  }

  /** A record that is accepted. */
  lemma {:induction false} RecordOpened(sent: seq<Sent>, out: seq<Outgoing>, keyring: seq<SealKeys>, keys: Keys, r: Reading,
                                        d: SealedPiece, version: nat, s: seq<byte>, maxLen: nat)
    requires Numbered(sent) && RxOk(r.rx) && SlotsFaithful(sent, r.rx) && Takes(r.rx, sent, out, maxLen) && !r.failed
    requires Fitting(sent, out, keyring, d) && InFront(d, s) && d.pair.0 == r.rx.epoch < |keyring| <= 65536
    requires Paired(keyring[d.pair.0], keys) && SealedAs(keyring[d.pair.0], version, d) && version < 65536
    requires VersionFits(keys, version) && WithinLimits(d) && Fresh(r.recorded, NumberOf(d)) && (d.kind == 22 || keys.nullCipher)
    ensures |r.rx.slots| == FLIGHT
    ensures var r' := OpenNext(keys, r, s, maxLen);
            && RxOk(r'.rx) && SlotsFaithful(sent, r'.rx) && Grows(r.rx, r'.rx) && !r'.failed && Got(sent, out, r'.rx, d)
            && r'.recorded == r.recorded + {NumberOf(d)}
    ensures Past(keys, s) == |d.record|
  {
    assert d.kind == 20 || d.kind == 22;
    assert d.pair.1 < TWO_48 by { assert SealedUnder(keyring, d); }
    RecordTaken(sent, out, r.rx, d, keys.nullCipher, maxLen);
    FrontAccepted(d, keyring[d.pair.0], version, r.rx.epoch, keys, r.recorded, s);
    hide ParseHeader, VersionOk, Judge, RxOk, SlotsFaithful, Grows, Got, Carries, SealedAs, Paired, Takes, OpenHandshake;
  }

  /** A record of the pass at the front of a datagram. */
  lemma {:induction false} RecordRead(sent: seq<Sent>, out: seq<Outgoing>, keyring: seq<SealKeys>, keys: Keys, ds: seq<SealedPiece>,
                                      start: Reading, r: Reading, q: nat, s: seq<byte>, maxLen: nat)
    requires Legible(sent, out, keyring, keys, ds, start, maxLen) && Midway(sent, out, ds, start, r)
    requires q < |ds| && InFront(ds[q], s)
    ensures |r.rx.slots| == FLIGHT && Past(keys, s) == |ds[q].record| > 0
    ensures var r' := OpenNext(keys, r, s, maxLen);
            && Midway(sent, out, ds, start, r') && r.recorded <= r'.recorded
            && (ds[q].pair.0 == start.rx.epoch ==> NumberOf(ds[q]) in r'.recorded)
  {
    hide RxOk, SlotsFaithful, Got, Grows, Carries, Paired, Fresh, IsQueued, OpenNext, Past, RecordBytes, Numbered;
    var d := ds[q];
    GrowsParts(start.rx, r.rx);
    assert Fitting(sent, out, keyring, d) && SealedUnder(keyring, d);
    var version: nat :| version < 65536 && SealedAs(keyring[d.pair.0], version, d);
    VersionInRecord(d, version, keys);
    RecordLength(d.kind, version, d.pair, d.cipher);
    if d.pair.0 != start.rx.epoch || NumberOf(d) in r.recorded {
      NotFresh(r.recorded, NumberOf(d));
      RecordDropped(keys, r, d, version, s, maxLen);
    } else {
      StaysFresh(ds, keys, start, r.recorded, q);
      assert Takes(r.rx, sent, out, maxLen);
      RecordOpened(sent, out, keyring, keys, r, d, version, s, maxLen);
      var r' := OpenNext(keys, r, s, maxLen);
      GrowsOn(start.rx, r.rx, r'.rx);
      forall p | 0 <= p < |ds| && ds[p].pair.0 == start.rx.epoch && NumberOf(ds[p]) in r'.recorded
        ensures Got(sent, out, r'.rx, ds[p])
      {
        if p != q {
          NumberSplit(ds[p], d);
          GotGrows(sent, out, r.rx, r'.rx, ds[p]);
        }
      }
      assert Numbers(ds, start.rx.epoch, NumberOf(d));
    }
  }

  lemma {:induction false} GrowsParts(rx: Rx, rx': Rx)
    requires Grows(rx, rx')
    ensures |rx.slots| == |rx'.slots| == FLIGHT && rx'.readSeq == rx.readSeq && rx'.epoch == rx.epoch
  {
  }

  lemma {:induction false} GrowsOn(a: Rx, b: Rx, c: Rx)
    requires Grows(a, b) && Grows(b, c)
    ensures Grows(a, c)
  {
    hide Holds;
  }

  lemma {:induction false} NotFresh(recorded: set<nat>, n: nat)
    ensures n in recorded ==> !Fresh(recorded, n)
  {
  }

  /** All records of the epoch are recorded. */
  ghost predicate AllRecorded(ps: seq<SealedPiece>, epoch: nat, recorded: set<nat>) {
    forall k :: 0 <= k < |ps| && ps[k].pair.0 == epoch ==> NumberOf(ps[k]) in recorded
  }

  lemma {:induction false} RecordedMore(ps: seq<SealedPiece>, epoch: nat, recorded: set<nat>, recorded': set<nat>)
    requires AllRecorded(ps, epoch, recorded) && recorded <= recorded'
    ensures AllRecorded(ps, epoch, recorded')
  {
  }

  lemma {:induction false} RecordsLast(ps: seq<SealedPiece>, d: SealedPiece)
    ensures RecordsOf(ps + [d]) == RecordsOf(ps) + d.record
    ensures RecordsOf([d]) == d.record
  {
    assert (ps + [d])[..|ps|] == ps && [d][..0] == [];
    assert RecordsOf([]) + d.record == d.record;
  }

  lemma {:induction false} Joined(a: seq<byte>, b: seq<byte>, c: seq<byte>)
    ensures a + b + c == a + (b + c)
  {
  }

  lemma {:induction false} RecordsFront(ps: seq<SealedPiece>)
    requires ps != []
    ensures RecordsOf(ps) == ps[0].record + RecordsOf(ps[1..])
  {
    hide RecordsOf;
    var n := |ps| - 1;
    var d := ps[n];
    RecordsLast(ps[..n], d);
    assert ps[..n] + [d] == ps;
    if n == 0 {
      NoRecords();
      assert ps[1..] == [] && ps == [d];
      assert d.record + [] == d.record;
      return;
    }
    var middle := ps[1..n];
    RecordsFront(ps[..n]);
    RecordsLast(middle, d);
    assert ps[..n][1..] == middle && ps[1..] == middle + [d];
    Joined(ps[0].record, RecordsOf(middle), d.record);
  }

  lemma {:induction false} NoRecords()
    ensures RecordsOf([]) == []
  {
  }

  /** A datagram of the pass, which begins with its record q, is read to its end. */
  lemma {:induction false} DatagramRead(sent: seq<Sent>, out: seq<Outgoing>, keyring: seq<SealKeys>, keys: Keys, ds: seq<SealedPiece>,
                                        start: Reading, r: Reading, ps: seq<SealedPiece>, q: nat, maxLen: nat)
    requires Legible(sent, out, keyring, keys, ds, start, maxLen) && Midway(sent, out, ds, start, r)
    requires q + |ps| <= |ds| && ps == ds[q..q + |ps|]
    ensures |r.rx.slots| == FLIGHT
    ensures var r' := OpenDatagram(keys, r, RecordsOf(ps), maxLen);
            && Midway(sent, out, ds, start, r') && r.recorded <= r'.recorded
            && AllRecorded(ps, start.rx.epoch, r'.recorded)
    decreases |ps|
  {
    hide Legible, OpenNext, Past;
    MidwayRing(sent, out, ds, start, r);
    hide Midway;
    if ps == [] {
      assert RecordsOf(ps) == [];
      return;
    }
    var s := RecordsOf(ps);
    RecordsFront(ps);
    hide RecordsOf;
    assert ps[0] == ds[q] && InFront(ds[q], s);
    RecordRead(sent, out, keyring, keys, ds, start, r, q, s, maxLen);
    var next := OpenNext(keys, r, s, maxLen);
    assert s[Past(keys, s)..] == RecordsOf(ps[1..]);
    DatagramRead(sent, out, keyring, keys, ds, start, next, ps[1..], q + 1, maxLen);
    var r' := OpenDatagram(keys, next, RecordsOf(ps[1..]), maxLen);
    assert OpenDatagram(keys, r, s, maxLen) == r';
    forall k | 0 <= k < |ps| && ps[k].pair.0 == start.rx.epoch
      ensures NumberOf(ps[k]) in r'.recorded
    {
      if k > 0 { assert ps[1..][k - 1] == ps[k]; }
    }
  }

  lemma {:induction false} MidwayRing(sent: seq<Sent>, out: seq<Outgoing>, ds: seq<SealedPiece>, start: Reading, r: Reading)
    requires Midway(sent, out, ds, start, r)
    ensures |r.rx.slots| == FLIGHT && !r.failed
  {
  }

  /** Where a datagram stands among the records of the pass. */
  lemma {:induction false} PacketAt(packets: seq<seq<SealedPiece>>, g: nat) returns (q: nat)
    requires g < |packets|
    ensures var ds := FlightPass.Flatten(packets); q + |packets[g]| <= |ds| && packets[g] == ds[q..q + |packets[g]|]
  {
    var n := |packets| - 1;
    if g == n { q := |FlightPass.Flatten(packets[..n])|; } else { q := PacketAt(packets[..n], g); }
  }

  /** Which datagram a record is in. */
  lemma {:induction false} PacketOf(packets: seq<seq<SealedPiece>>, q: nat) returns (g: nat, k: nat)
    requires q < |FlightPass.Flatten(packets)|
    ensures g < |packets| && k < |packets[g]| && FlightPass.Flatten(packets)[q] == packets[g][k]
  {
    var n := |packets| - 1;
    var before := |FlightPass.Flatten(packets[..n])|;
    if q >= before { g, k := n, q - before; } else { g, k := PacketOf(packets[..n], q); }
  }

  /** Any datagrams of the pass, in any order and any number of times. */
  lemma {:induction false} ArrivingRead(sent: seq<Sent>, out: seq<Outgoing>, keyring: seq<SealKeys>, keys: Keys,
                                        packets: seq<seq<SealedPiece>>, start: Reading, gs: seq<nat>, maxLen: nat)
    requires Legible(sent, out, keyring, keys, FlightPass.Flatten(packets), start, maxLen)
    requires RxOk(start.rx) && SlotsFaithful(sent, start.rx) && !start.failed
    requires forall j :: 0 <= j < |gs| ==> gs[j] < |packets|
    ensures |start.rx.slots| == FLIGHT
    ensures var r' := OpenArriving(keys, start, packets, gs, maxLen);
            && Midway(sent, out, FlightPass.Flatten(packets), start, r')
            && forall j :: 0 <= j < |gs| ==> AllRecorded(packets[gs[j]], start.rx.epoch, r'.recorded)
    decreases |gs|
  {
    hide Legible, Midway, RxOk, SlotsFaithful, OpenDatagram, RecordsOf, FlightPass.Flatten, AllRecorded;
    var ds := FlightPass.Flatten(packets);
    NothingRead(sent, out, keyring, keys, ds, start, maxLen);
    if gs == [] { return; }
    var n := |gs| - 1;
    ArrivingRead(sent, out, keyring, keys, packets, start, gs[..n], maxLen);
    var r := OpenArriving(keys, start, packets, gs[..n], maxLen);
    var q := PacketAt(packets, gs[n]);
    DatagramRead(sent, out, keyring, keys, ds, start, r, packets[gs[n]], q, maxLen);
    var r' := OpenArriving(keys, start, packets, gs, maxLen);
    forall j | 0 <= j < |gs|
      ensures AllRecorded(packets[gs[j]], start.rx.epoch, r'.recorded)
    {
      if j < n {
        assert gs[..n][j] == gs[j];
        RecordedMore(packets[gs[j]], start.rx.epoch, r.recorded, r'.recorded);
      }
    }
  }

  lemma {:induction false} NothingRead(sent: seq<Sent>, out: seq<Outgoing>, keyring: seq<SealKeys>, keys: Keys, ds: seq<SealedPiece>,
                                       start: Reading, maxLen: nat)
    requires Legible(sent, out, keyring, keys, ds, start, maxLen)
    requires RxOk(start.rx) && SlotsFaithful(sent, start.rx) && !start.failed
    ensures |start.rx.slots| == FLIGHT && Midway(sent, out, ds, start, start)
  {
    hide SlotsFaithful, Holds, SlotOk;
  }

  // ----- a pass

  /** The pieces of the pass are of the queue, each sealed in the epoch of its message. */
  lemma {:induction false} PassEpochs(out: seq<Outgoing>, attempts: seq<Attempt>)
    requires AfterAttempts(out, attempts).Some?
    ensures forall d :: d in PiecesWith(attempts, {Accepted}) ==> Carries(out, d) && d.pair.0 == out[d.piece.msg].epoch
  {
    hide Carries, Walk;
    if attempts != [] {
      var before, last := attempts[..|attempts| - 1], attempts[|attempts| - 1];
      PassEpochs(out, before);
      assert AttemptOk(out, AfterAttempts(out, before).value, last);
      assert FlightPass.Genuine(out, last.ks, last.ds);
      forall d | d in last.ds
        ensures Carries(out, d) && d.piece.msg < |out| && d.pair.0 == out[d.piece.msg].epoch
      {
        var i :| 0 <= i < |last.ds| && last.ds[i] == d;
        assert Carries(out, last.ds[i]) && Protects(out, last.ks, last.ds[i]);
      }
    }
  }

  lemma {:induction false} FlattenSealed(keyring: seq<SealKeys>, packets: seq<seq<SealedPiece>>)
    requires forall k :: 0 <= k < |packets| ==> AllSealedUnder(keyring, packets[k])
    ensures AllSealedUnder(keyring, FlightPass.Flatten(packets))
  {
    hide SealedUnder;
    if packets != [] {
      var n := |packets| - 1;
      FlattenSealed(keyring, packets[..n]);
      assert AllSealedUnder(keyring, packets[n]);
    }
  }

  /** Message i is in the flight, and of the epoch. */
  ghost predicate InFlightOf(sent: seq<Sent>, out: seq<Outgoing>, epoch: nat, i: nat) {
    exists msg: nat :: IsQueued(sent, out, msg, i) && out[msg].epoch == epoch
  }

  /** A message of the epoch is there once all records of the epoch are. */
  lemma {:induction false} MessageThere(sent: seq<Sent>, out: seq<Outgoing>, keyring: seq<SealKeys>, ds: seq<SealedPiece>, rx: Rx, i: nat)
    requires Numbered(sent) && AllFitting(sent, out, keyring, ds) && Tiles(out, PiecesIn(ds))
    requires RxOk(rx) && SlotsFaithful(sent, rx) && InFlightOf(sent, out, rx.epoch, i)
    requires forall q :: 0 <= q < |ds| && ds[q].pair.0 == rx.epoch ==> Got(sent, out, rx, ds[q])
    requires rx.readSeq <= i < rx.readSeq + FLIGHT
    ensures i < |sent| && Arrived(sent, rx, i)
  {
    var msg: nat :| IsQueued(sent, out, msg, i) && out[msg].epoch == rx.epoch;
    assert |rx.slots| == FLIGHT;
    QueuedIndex(sent, out, msg, i);
    forall k: nat | k <= |sent[i].body|
      ensures Holds(rx, i, k)
    {
      ByteThere(sent, out, keyring, ds, rx, msg, i, k);
    }
    assert Holds(rx, i, 0);
    hide RxOk, Got, Numbered, AllFitting, Tiles, IsQueued;
    var slot := rx.slots[i % FLIGHT].value;
    assert Faithful(sent, slot);
    forall k | 0 <= k < |slot.got| ensures slot.got[k].Some? { assert Holds(rx, i, k); }
  }

  lemma {:induction false} ByteThere(sent: seq<Sent>, out: seq<Outgoing>, keyring: seq<SealKeys>, ds: seq<SealedPiece>, rx: Rx,
                                     msg: nat, i: nat, k: nat)
    requires Numbered(sent) && AllFitting(sent, out, keyring, ds) && Tiles(out, PiecesIn(ds))
    requires |rx.slots| == FLIGHT && IsQueued(sent, out, msg, i) && out[msg].epoch == rx.epoch && i < |sent|
    requires forall q :: 0 <= q < |ds| && ds[q].pair.0 == rx.epoch ==> Got(sent, out, rx, ds[q])
    requires rx.readSeq <= i < rx.readSeq + FLIGHT
    ensures Holds(rx, i, k)
  {
    hide Holds, Numbered, Carries, SealedUnder, Matches;
    var ps := PiecesIn(ds);
    assert MessageTiled(out, ps, msg);
    var q := SomePiece(ps, msg);
    assert Fitting(sent, out, keyring, ds[q]);
    PieceOfMessage(sent, out, ds[q], i);
    if k < |sent[i].body| { q := CarrierOf(ps, msg, k); }
    assert Fitting(sent, out, keyring, ds[q]);
    assert Wanted(sent, out, ds[q], i, k);
    hide IsQueued, Tiles, MessageTiled;
  }

  /** A sender has finished a pass in which no sealing failed in mid datagram.  Once its datagrams have arrived,
      in any order and any number of times, the receiver, reading record by record with the keys of its
      epoch, has met no error and hands out in turn the next messages, as far as they are in the flight and of
      that epoch; and it has the ChangeCipherSpec, if one is. */
  lemma {:induction false} FlightRead(s: Sender, start: Reading, keys: Keys, gs: seq<nat>, maxLen: nat, n: nat)
    requires s.Valid() && s.honest && s.At() == Cursor(|s.outgoing|, 0) && NothingDropped(s.attempts) && Numbered(s.sent)
    requires RxOk(start.rx) && SlotsFaithful(s.sent, start.rx) && !start.failed
    requires start.rx.epoch < |s.keyring| && Paired(s.keyring[start.rx.epoch], keys)
    requires Readable(keys, start.rx.epoch, start.recorded, FlightPass.Flatten(s.network[s.passStart..]))
    requires Takes(start.rx, s.sent, s.outgoing, maxLen)
    requires n <= 7 && start.rx.readSeq + n <= |s.sent|
    requires forall i :: start.rx.readSeq <= i < start.rx.readSeq + n ==> InFlightOf(s.sent, s.outgoing, start.rx.epoch, i)
    requires forall j :: 0 <= j < |gs| ==> gs[j] < |s.network| - s.passStart
    requires forall g: nat :: g < |s.network| - s.passStart ==> g in gs
    ensures s.passStart <= |s.network| && |start.rx.slots| == FLIGHT
    ensures var r := OpenArriving(keys, start, s.network[s.passStart..], gs, maxLen);
            && !r.failed
            && TakeMessages(r.rx, n).1 == MessagesOf(s.sent, start.rx.readSeq, start.rx.readSeq + n)
            && forall msg :: 0 <= msg < |s.outgoing| && s.outgoing[msg].isCcs && s.outgoing[msg].epoch == start.rx.epoch ==> r.rx.hasCcs
  {
    assert PassState(s.outgoing, s.At(), s.attempts, s.network, s.passStart);
    var packets := s.network[s.passStart..];
    var ds := FlightPass.Flatten(packets);
    PassFitting(s);
    s.WholePass();
    hide Sender.Valid, RxOk, SlotsFaithful, NothingDropped, Readable, Takes, Paired, InFlightOf, AllFitting, Tiles, TakeMessages,
         MessagesOf;
    assert Legible(s.sent, s.outgoing, s.keyring, keys, ds, start, maxLen);
    ArrivingRead(s.sent, s.outgoing, s.keyring, keys, packets, start, gs, maxLen);
    var r := OpenArriving(keys, start, packets, gs, maxLen);
    hide Legible, Numbered, FlightPass.Flatten, OpenArriving;
    AllGot(s.sent, s.outgoing, packets, start, r, gs);
    PassDelivered(s.sent, s.outgoing, s.keyring, ds, start, r, n);
  }

  /** What the sender keeps track of says that its pass is fitting. */
  lemma {:induction false} PassFitting(s: Sender)
    requires s.Valid() && s.honest
    ensures s.passStart <= |s.network| && |s.keyring| <= 65536
    ensures AllFitting(s.sent, s.outgoing, s.keyring, FlightPass.Flatten(s.network[s.passStart..]))
  {
    assert PassState(s.outgoing, s.At(), s.attempts, s.network, s.passStart);
    hide AllSealedUnder, QueuedFrom, AfterAttempts, Datagrams, FlightPass.Flatten, AllFitting, Writer.Valid;
    AttemptsFitting(s.sent, s.outgoing, s.keyring, s.attempts, s.network[s.passStart..]);
  }

  lemma {:induction false} AttemptsFitting(sent: seq<Sent>, out: seq<Outgoing>, keyring: seq<SealKeys>, attempts: seq<Attempt>,
                                           packets: seq<seq<SealedPiece>>)
    requires AfterAttempts(out, attempts).Some? && packets == Datagrams(attempts)
    requires forall k :: 0 <= k < |packets| ==> AllSealedUnder(keyring, packets[k])
    requires forall k :: 0 <= k < |out| ==> QueuedFrom(sent, out[k])
    ensures AllFitting(sent, out, keyring, FlightPass.Flatten(packets))
  {
    hide Carries, SealedUnder, QueuedFrom, AfterAttempts, Datagrams;
    var ds := FlightPass.Flatten(packets);
    PassEpochs(out, attempts);
    DatagramPieces(attempts);
    FlattenSealed(keyring, packets);
    hide FlightPass.Flatten, PiecesWith;
    forall q | 0 <= q < |ds|
      ensures Fitting(sent, out, keyring, ds[q])
    {
      assert ds[q] in PiecesWith(attempts, {Accepted});
      CarriesQueued(out, ds[q]);
    }
  }

  /** Every record of the epoch has been read. */
  lemma {:induction false} AllGot(sent: seq<Sent>, out: seq<Outgoing>, packets: seq<seq<SealedPiece>>, start: Reading, r: Reading,
                                  gs: seq<nat>)
    requires Midway(sent, out, FlightPass.Flatten(packets), start, r)
    requires forall j :: 0 <= j < |gs| ==> gs[j] < |packets|
    requires forall j :: 0 <= j < |gs| ==> AllRecorded(packets[gs[j]], start.rx.epoch, r.recorded)
    requires forall g: nat :: g < |packets| ==> g in gs
    ensures |r.rx.slots| == FLIGHT
    ensures var ds := FlightPass.Flatten(packets);
            forall q :: 0 <= q < |ds| && ds[q].pair.0 == start.rx.epoch ==> Got(sent, out, r.rx, ds[q])
  {
    hide RxOk, SlotsFaithful, Got, FlightPass.Flatten;
    MidwayRing(sent, out, FlightPass.Flatten(packets), start, r);
    var ds := FlightPass.Flatten(packets);
    forall q | 0 <= q < |ds| && ds[q].pair.0 == start.rx.epoch
      ensures Got(sent, out, r.rx, ds[q])
    {
      var g, k := PacketOf(packets, q);
      assert g in gs;
      var j :| 0 <= j < |gs| && gs[j] == g;
      assert AllRecorded(packets[gs[j]], start.rx.epoch, r.recorded);
    }
  }

  lemma {:induction false} PassDelivered(sent: seq<Sent>, out: seq<Outgoing>, keyring: seq<SealKeys>, ds: seq<SealedPiece>,
                                         start: Reading, r: Reading, n: nat)
    requires Numbered(sent) && AllFitting(sent, out, keyring, ds) && Tiles(out, PiecesIn(ds)) && Midway(sent, out, ds, start, r)
    requires |r.rx.slots| == FLIGHT
    requires forall q :: 0 <= q < |ds| && ds[q].pair.0 == start.rx.epoch ==> Got(sent, out, r.rx, ds[q])
    requires n <= FLIGHT && start.rx.readSeq + n <= |sent|
    requires forall i :: start.rx.readSeq <= i < start.rx.readSeq + n ==> InFlightOf(sent, out, start.rx.epoch, i)
    ensures !r.failed && TakeMessages(r.rx, n).1 == MessagesOf(sent, start.rx.readSeq, start.rx.readSeq + n)
    ensures forall msg :: 0 <= msg < |out| && out[msg].isCcs && out[msg].epoch == start.rx.epoch ==> r.rx.hasCcs
  {
    GrowsParts(start.rx, r.rx);
    hide RxOk, SlotsFaithful, Got, Numbered, AllFitting, Tiles, TakeMessages, MessagesOf, InFlightOf, Grows;
    forall i | r.rx.readSeq <= i < r.rx.readSeq + n
      ensures Arrived(sent, r.rx, i)
    {
      MessageThere(sent, out, keyring, ds, r.rx, i);
    }
    ArrivedTaken(r.rx, sent, n);
    forall msg | 0 <= msg < |out| && out[msg].isCcs && out[msg].epoch == start.rx.epoch
      ensures r.rx.hasCcs
    {
      FlagThere(sent, out, keyring, ds, r.rx, msg);
    }
  }

  lemma {:induction false} FlagThere(sent: seq<Sent>, out: seq<Outgoing>, keyring: seq<SealKeys>, ds: seq<SealedPiece>, rx: Rx, msg: nat)
    requires AllFitting(sent, out, keyring, ds) && Tiles(out, PiecesIn(ds)) && |rx.slots| == FLIGHT
    requires msg < |out| && out[msg].isCcs && out[msg].epoch == rx.epoch
    requires forall q :: 0 <= q < |ds| && ds[q].pair.0 == rx.epoch ==> Got(sent, out, rx, ds[q])
    ensures rx.hasCcs
  {
    hide SealedUnder, Holds, Wanted;
    assert MessageTiled(out, PiecesIn(ds), msg);
    var q := SomePiece(PiecesIn(ds), msg);
    assert Fitting(sent, out, keyring, ds[q]);
  }
}
