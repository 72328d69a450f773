/** What a sender has submitted over its life, and that everything it queues, hashes and puts on the
    wire comes from that. */
module SenderHistory {
  import opened Bits
  import opened NetworkOrder
  import opened HandshakeFormat
  import opened RecordReader
  import opened RecordWriter
  import opened HandshakeReceiver
  import opened Flight
  import opened FlightPass
  import opened Transport

  /** Message i as it is queued; sequence numbers are 16 bits wide. */
  function MessageBytes(sent: seq<Sent>, i: nat): seq<byte>
    requires i < |sent|
  {
    TranscriptBytes(sent[i], i % TWO_16)
  }

  ghost predicate QueuedFrom(sent: seq<Sent>, m: Outgoing) {
    m.isCcs || exists i: nat :: i < |sent| && m.data == MessageBytes(sent, i)
  }

  /** The bytes of the messages that were added during a handshake. */
  function Transcript(sent: seq<Sent>, counted: seq<bool>): seq<byte>
    requires |counted| == |sent|
  {
    if sent == [] then []
    else
      var n := |sent| - 1;
      Transcript(sent[..n], counted[..n]) + if counted[n] then MessageBytes(sent, n) else []
  }

  /** Bytes from to to of message i, as a fragment. */
  function SliceOf(sent: seq<Sent>, i: nat, from: nat, to: nat): Fragment
    requires i < |sent| && from <= to <= |sent[i].body|
  {
    Fragment(sent[i].kind, |sent[i].body|, i % TWO_16, from, sent[i].body[from..to])
  }

  ghost predicate IsSlice(sent: seq<Sent>, plain: seq<byte>, i: nat, from: nat, to: nat) {
    i < |sent| && from <= to <= |sent[i].body| && plain == FragmentBytes(SliceOf(sent, i, from, to))
  }

  /** The record holds a ChangeCipherSpec, or a slice of a message that was submitted. */
  ghost predicate PlainFrom(sent: seq<Sent>, d: SealedPiece) {
    if d.kind == KIND_CCS then d.plain == CCS_BODY
    else d.kind == KIND_HANDSHAKE && exists i: nat, from: nat, to: nat :: IsSlice(sent, d.plain, i, from, to)
  }

  ghost predicate AllPlainFrom(sent: seq<Sent>, ds: seq<SealedPiece>) {
    forall k :: 0 <= k < |ds| ==> PlainFrom(sent, ds[k])
  }

  /** Messages have fitting bodies and consecutive numbers, and queue, transcript and wire hold nothing
      else. */
  ghost predicate History(sent: seq<Sent>, counted: seq<bool>, out: seq<Outgoing>, writeSeq: nat,
                          transcript: seq<byte>, network: seq<seq<SealedPiece>>) {
    && |counted| == |sent| && writeSeq == |sent| % TWO_16
    && (forall i :: 0 <= i < |sent| ==> |sent[i].body| < TWO_24)
    && (forall k :: 0 <= k < |out| ==> QueuedFrom(sent, out[k]))
    && transcript == Transcript(sent, counted)
    && forall k :: 0 <= k < |network| ==> AllPlainFrom(sent, network[k])
  }

  lemma {:induction false} QueuedLonger(sent: seq<Sent>, s: Sent, m: Outgoing)
    requires QueuedFrom(sent, m)
    ensures QueuedFrom(sent + [s], m)
  {
    if !m.isCcs {
      var i: nat :| i < |sent| && m.data == MessageBytes(sent, i);
      assert m.data == MessageBytes(sent + [s], i);
    }
  }

  lemma {:induction false} PlainLonger(sent: seq<Sent>, s: Sent, d: SealedPiece)
    requires PlainFrom(sent, d)
    ensures PlainFrom(sent + [s], d)
  {
    if d.kind != KIND_CCS {
      var i: nat, from: nat, to: nat :| IsSlice(sent, d.plain, i, from, to);
      assert IsSlice(sent + [s], d.plain, i, from, to);
    }
  }

  lemma {:induction false} AllPlainLonger(sent: seq<Sent>, s: Sent, ds: seq<SealedPiece>)
    requires AllPlainFrom(sent, ds)
    ensures AllPlainFrom(sent + [s], ds)
  {
    forall k | 0 <= k < |ds| ensures PlainFrom(sent + [s], ds[k]) { PlainLonger(sent, s, ds[k]); }
  }

  /** The message data stands for s. */
  predicate StandsFor(data: seq<byte>, s: Sent, writeSeq: nat) {
    data == TranscriptBytes(s, writeSeq) && |s.body| < TWO_24
  }

  // ----- the keys of every epoch

  /** The record is what the keys of its epoch made of the plaintext. */
  ghost predicate SealedUnder(keyring: seq<SealKeys>, d: SealedPiece) {
    && d.pair.0 < |keyring| && d.pair.1 < TWO_48 && |d.cipher| < 65536
    && exists version: nat :: version < 65536 && SealedAs(keyring[d.pair.0], version, d)
  }

  ghost predicate SealedAs(keys: SealKeys, version: nat, d: SealedPiece) {
    && d.record == RecordBytes(d.kind, version, d.pair, d.cipher)
    && keys.seal(d.kind, version, BigEndian(d.pair.0, 2) + BigEndian(d.pair.1, 6), d.plain) == Some(d.cipher)
  }

  ghost predicate AllSealedUnder(keyring: seq<SealKeys>, ds: seq<SealedPiece>) {
    forall k :: 0 <= k < |ds| ==> SealedUnder(keyring, ds[k])
  }

  /** The keys of all epochs so far, the last two of which are still in use, and every record on the wire
      under those of its epoch.  The 16-bit epoch has not wrapped. */
  ghost predicate Keyed(keyring: seq<SealKeys>, ks: KeyState, network: seq<seq<SealedPiece>>) {
    && |keyring| == ks.epoch + 1 <= 65536 && ks.keys == keyring[ks.epoch] && ks.keys.version < 65536
    && (ks.epoch >= 1 ==> ks.lastKeys == keyring[ks.epoch - 1])
    && forall k :: 0 <= k < |network| ==> AllSealedUnder(keyring, network[k])
  }

  lemma {:induction false} SealedLater(keyring: seq<SealKeys>, next: SealKeys, d: SealedPiece)
    requires SealedUnder(keyring, d)
    ensures SealedUnder(keyring + [next], d)
  {
    var version: nat :| version < 65536 && SealedAs(keyring[d.pair.0], version, d);
    assert SealedAs((keyring + [next])[d.pair.0], version, d);
  }

  lemma {:induction false} AllSealedLater(keyring: seq<SealKeys>, next: SealKeys, ds: seq<SealedPiece>)
    requires AllSealedUnder(keyring, ds)
    ensures AllSealedUnder(keyring + [next], ds)
  {
    hide SealedUnder;
    forall k | 0 <= k < |ds| ensures SealedUnder(keyring + [next], ds[k]) { SealedLater(keyring, next, ds[k]); }
  }

  /** New write keys. */
  lemma {:induction false} KeyringGrows(keyring: seq<SealKeys>, ks: KeyState, network: seq<seq<SealedPiece>>, next: SealKeys)
    requires Keyed(keyring, ks, network) && |keyring| < 65536 && Bounded(next)
    ensures Keyed(keyring + [next], KeyState((ks.epoch + 1) % 65536, next, ks.keys), network)
  {
    assert next.version < 65536;
    hide AllSealedUnder, Bounded;
    forall k | 0 <= k < |network| ensures AllSealedUnder(keyring + [next], network[k]) {
      AllSealedLater(keyring, next, network[k]);
    }
  }

  /** A datagram is put on the wire. */
  lemma {:induction false} KeyedMore(keyring: seq<SealKeys>, ks: KeyState, network: seq<seq<SealedPiece>>,
                                     out: seq<Outgoing>, ds: seq<SealedPiece>)
    requires Keyed(keyring, ks, network) && FlightPass.Genuine(out, ks, ds)
    ensures Keyed(keyring, ks, network + [ds])
  {
    forall k | 0 <= k < |ds|
      ensures SealedUnder(keyring, ds[k])
    {
      assert Protects(out, ks, ds[k]);
      ProtectedSealed(keyring, ks, out, ds[k]);
    }
    hide SealedUnder;
    assert AllSealedUnder(keyring, ds);
    hide AllSealedUnder;
  }

  lemma {:induction false} ProtectedSealed(keyring: seq<SealKeys>, ks: KeyState, out: seq<Outgoing>, d: SealedPiece)
    requires Protects(out, ks, d) && |keyring| == ks.epoch + 1 && ks.keys == keyring[ks.epoch] && ks.keys.version < 65536
    requires ks.epoch >= 1 ==> ks.lastKeys == keyring[ks.epoch - 1]
    ensures SealedUnder(keyring, d)
  {
    assert SealedAs(keyring[d.pair.0], ks.keys.version, d);
  }

  // ----- steps

  /** Another message is submitted. */
  lemma {:induction false} Submitted(sent: seq<Sent>, counted: seq<bool>, out: seq<Outgoing>, writeSeq: nat, transcript: seq<byte>,
                  network: seq<seq<SealedPiece>>, s: Sent, m: Outgoing, hashed: bool)
    requires History(sent, counted, out, writeSeq, transcript, network) && StandsFor(m.data, s, writeSeq)
    ensures QueuedFrom(sent + [s], m)
    ensures History(sent + [s], counted + [hashed], out, (writeSeq + 1) % TWO_16,
                    transcript + if hashed then m.data else [], network)
  {
    hide TranscriptBytes, PlainFrom;
    var sent' := sent + [s];
    assert m.data == MessageBytes(sent', |sent|);
    forall k | 0 <= k < |out| ensures QueuedFrom(sent', out[k]) { QueuedLonger(sent, s, out[k]); }
    forall k | 0 <= k < |network| ensures AllPlainFrom(sent', network[k]) { AllPlainLonger(sent, s, network[k]); }
    assert sent'[..|sent|] == sent && (counted + [hashed])[..|sent|] == counted;
    assert (|sent| % TWO_16 + 1) % TWO_16 == |sent'| % TWO_16;
  }

  lemma {:induction false} CcsQueued(sent: seq<Sent>, data: seq<byte>, epoch: nat)
    ensures QueuedFrom(sent, Outgoing(data, epoch, true))
  {
  }

  lemma {:induction false} Queued(sent: seq<Sent>, counted: seq<bool>, out: seq<Outgoing>, writeSeq: nat, transcript: seq<byte>,
               network: seq<seq<SealedPiece>>, m: Outgoing)
    requires History(sent, counted, out, writeSeq, transcript, network) && QueuedFrom(sent, m)
    ensures History(sent, counted, out + [m], writeSeq, transcript, network)
  {
    hide QueuedFrom;
  }

  lemma {:induction false} QueueCleared(sent: seq<Sent>, counted: seq<bool>, out: seq<Outgoing>, writeSeq: nat, transcript: seq<byte>,
                                        network: seq<seq<SealedPiece>>)
    requires History(sent, counted, out, writeSeq, transcript, network)
    ensures History(sent, counted, [], writeSeq, transcript, network)
  {
    hide QueuedFrom, Transcript, AllPlainFrom;
  }

  /** A piece of a queued message is a slice of the message that was submitted. */
  lemma {:induction false} CarriesSlice(sent: seq<Sent>, out: seq<Outgoing>, d: SealedPiece)
    requires Carries(out, d) && QueuedFrom(sent, out[d.piece.msg])
    requires forall i :: 0 <= i < |sent| ==> |sent[i].body| < TWO_24
    ensures PlainFrom(sent, d)
  {
    var m := out[d.piece.msg];
    if !m.isCcs {
      var i: nat :| i < |sent| && m.data == MessageBytes(sent, i);
      var f := Fragment(sent[i].kind, |sent[i].body|, i % TWO_16, 0, sent[i].body);
      FragmentRoundTrip(f, []);
      assert FragmentBytes(f) + [] == FragmentBytes(f);
      hide FragmentBytes, ParseFragment;
      assert IsSlice(sent, d.plain, i, d.piece.from, d.piece.to);
    }
  }

  /** A datagram of pieces of the queue is put on the wire. */
  lemma {:induction false} Written(sent: seq<Sent>, counted: seq<bool>, out: seq<Outgoing>, writeSeq: nat, transcript: seq<byte>,
                network: seq<seq<SealedPiece>>, ks: KeyState, ds: seq<SealedPiece>)
    requires History(sent, counted, out, writeSeq, transcript, network) && FlightPass.Genuine(out, ks, ds)
    ensures History(sent, counted, out, writeSeq, transcript, network + [ds])
  {
    hide Carries, PlainFrom, QueuedFrom, Protects;
    forall k | 0 <= k < |ds|
      ensures PlainFrom(sent, ds[k])
    {
      assert Carries(out, ds[k]);
      assert ds[k].piece.msg < |out| by { CarriesQueued(out, ds[k]); }
      CarriesSlice(sent, out, ds[k]);
    }
  }

  lemma {:induction false} CarriesQueued(out: seq<Outgoing>, d: SealedPiece)
    requires Carries(out, d)
    ensures d.piece.msg < |out|
  {
  }

  /** Everything on the wire is what the transition system lets its sender transmit, while sequence
      numbers have not wrapped. */
  lemma {:induction false} WireGenuine(sent: seq<Sent>, d: SealedPiece)
    requires |sent| <= TWO_16 && PlainFrom(sent, d)
    ensures d.kind == KIND_CCS || Transport.Genuine(sent, d.plain)
  {
    if d.kind != KIND_CCS {
      var i: nat, from: nat, to: nat :| IsSlice(sent, d.plain, i, from, to);
      assert SliceOf(sent, i, from, to) == SliceFragment(sent, i, from, to);
    }
  }

  // ----- what the receiver has, against the sender's transcript

  function RawOf(delivered: seq<Message>): seq<byte> {
    if delivered == [] then [] else RawOf(delivered[..|delivered| - 1]) + delivered[|delivered| - 1].raw
  }

  /** The raw bytes of what was delivered are the front of the sender's transcript, when every message was
      added during the handshake. */
  lemma {:induction false} DeliveredTranscript(sent: seq<Sent>, delivered: seq<Message>, counted: seq<bool>)
    requires DeliveredPrefix(sent, delivered) && |sent| <= TWO_16 && |counted| == |sent|
    requires forall i :: 0 <= i < |counted| ==> counted[i]
    ensures RawOf(delivered) <= Transcript(sent, counted)
  {
    hide TranscriptBytes, RawOf, Transcript;
    var n := |delivered|;
    TranscriptGrows(sent, counted, n, |sent|);
    assert sent[..|sent|] == sent && counted[..|counted|] == counted && delivered[..n] == delivered;
    DeliveredFront(sent, delivered, counted, n);
  }

  lemma {:induction false} DeliveredFront(sent: seq<Sent>, delivered: seq<Message>, counted: seq<bool>, n: nat)
    requires DeliveredPrefix(sent, delivered) && |sent| <= TWO_16 && |counted| == |sent| && n <= |delivered|
    requires forall i :: 0 <= i < |counted| ==> counted[i]
    ensures RawOf(delivered[..n]) == Transcript(sent[..n], counted[..n])
  {
    hide TranscriptBytes;
    if n == 0 { return; }
    var k: nat := n - 1;
    DeliveredFront(sent, delivered, counted, k);
    assert delivered[..n][..k] == delivered[..k];
    assert sent[..n][..k] == sent[..k] && counted[..n][..k] == counted[..k];
    assert delivered[k] == Message(sent[k].kind, sent[k].body, TranscriptBytes(sent[k], k));
    hide DeliveredPrefix;
    assert MessageBytes(sent[..n], k) == TranscriptBytes(sent[k], k);
  }

  lemma {:induction false} TranscriptGrows(sent: seq<Sent>, counted: seq<bool>, i: nat, j: nat)
    requires |counted| == |sent| && i <= j <= |sent|
    ensures Transcript(sent[..i], counted[..i]) <= Transcript(sent[..j], counted[..j])
  {
    hide TranscriptBytes;
    if i < j {
      TranscriptGrows(sent, counted, i, j - 1);
      assert sent[..j][..j - 1] == sent[..j - 1] && counted[..j][..j - 1] == counted[..j - 1];
    }
  }
}
