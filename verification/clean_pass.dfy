/** When a pass over a flight is sure to seal everything it starts on. */
module CleanPass {
  import opened Bits
  import opened HandshakeFormat
  import opened RecordReader
  import opened RecordWriter
  import opened Flight
  import opened FlightPass
  import opened SenderHistory
  import Transport

  /** The keys of the epoch the message was queued in, if that is the current or the previous one. */
  function KeysOf(m: Outgoing, ks: KeyState): SealKeys { if m.epoch == ks.epoch then ks.keys else ks.lastKeys }

  /** The message can be sealed: its epoch has keys, and it is a ChangeCipherSpec or well formed. */
  predicate Sealable(m: Outgoing, ks: KeyState) {
    (m.epoch == ks.epoch || m.epoch + 1 == ks.epoch) && (m.isCcs || Formed(m))
  }

  /** The least room in which a record of the message makes progress. */
  function Need(m: Outgoing, ks: KeyState): nat {
    RT_HEADER + KeysOf(m, ks).maxOverhead + if m.isCcs then 1 else HM_HEADER + 1
  }

  /** Where the next piece ends: it is as long as the room allows. */
  function PieceEnd(m: Outgoing, offset: nat, ks: KeyState, maxOut: nat): nat
    requires offset <= |BodyOf(m)| && maxOut >= Need(m, ks)
  {
    var room, left := maxOut - Need(m, ks) + 1, |BodyOf(m)| - offset;
    if left <= room then |BodyOf(m)| else offset + room
  }

  /** The plaintext of that piece. */
  function PieceText(m: Outgoing, offset: nat, ks: KeyState, maxOut: nat): seq<byte>
    requires offset <= |BodyOf(m)| && maxOut >= Need(m, ks)
  {
    if m.isCcs || !Formed(m) then CCS_BODY
    else
      var f := ParseFragment(m.data).value;
      FragmentBytes(Fragment(f.kind, f.msgLen, f.seq_, offset, f.body[offset..PieceEnd(m, offset, ks, maxOut)]))
  }

  /** What there must be room for: the record header, what the AEAD adds, and one byte of a ChangeCipherSpec, or
      the header of a fragment and one byte.  A piece that does not finish its message fills the room. */
  lemma {:induction false} PieceFills(m: Outgoing, offset: nat, ks: KeyState, maxOut: nat)
    requires offset <= |BodyOf(m)| && maxOut >= Need(m, ks)
    ensures Need(m, ks) == 13 + (if m.epoch == ks.epoch then ks.keys else ks.lastKeys).maxOverhead + if m.isCcs then 1 else 13
    ensures var end := PieceEnd(m, offset, ks, maxOut);
            && offset <= end <= |BodyOf(m)|
            && (end < |BodyOf(m)| ==> end - offset == maxOut - Need(m, ks) + 1)
            && (!m.isCcs && Formed(m) && end < |BodyOf(m)| ==>
                  13 + |PieceText(m, offset, ks, maxOut)| + KeysOf(m, ks).maxOverhead == maxOut)
  {
  }

  lemma {:induction false} PieceFits(m: Outgoing, offset: nat, ks: KeyState, maxOut: nat)
    requires offset <= |BodyOf(m)| && maxOut >= Need(m, ks)
    ensures RT_HEADER + |PieceText(m, offset, ks, maxOut)| + KeysOf(m, ks).maxOverhead <= maxOut
  {
  }

  /** The AEAD always has an answer. */
  ghost predicate Total(keys: SealKeys) {
    forall kind, version, seq_, in_ :: keys.seal(kind, version, seq_, in_).Some?
  }

  /** What is left to send: the bytes past the cursor, and one for each message. */
  function Work(out: seq<Outgoing>, c: Cursor): nat
    decreases |out| - c.written
  {
    if c.written >= |out| then 0
    else
      var len := |BodyOf(out[c.written])|;
      1 + (if c.offset <= len then len - c.offset else 0) + Work(out, Cursor(c.written + 1, 0))
  }

  lemma {:induction false} WorkStep(out: seq<Outgoing>, c: Cursor, p: Piece)
    requires Advance(out, c, p).Some?
    ensures Work(out, Advance(out, c, p).value) < Work(out, c)
  {
    hide BodyOf;
    var c' := Advance(out, c, p).value;
    var rest := Work(out, Cursor(c.written + 1, 0));
    assert Work(out, c) >= 1 + rest;
  }

  /** Everything past the cursor can be sealed: the messages, by an AEAD with an answer for each, with
      numbers to spare in both epochs, and in datagrams short enough for the length field of a record. */
  ghost predicate Ready(out: seq<Outgoing>, c: Cursor, ks: KeyState, counters: Counters, mtu: nat) {
    && (forall i :: c.written <= i < |out| ==> Sealable(out[i], ks))
    && Total(ks.keys) && Total(ks.lastKeys)
    && counters.current + Work(out, c) < TWO_48 && counters.previous + Work(out, c) < TWO_48
    && mtu < RT_HEADER + 65536
  }

  /** Datagrams are long enough for progress on every message. */
  ghost predicate Roomy(out: seq<Outgoing>, ks: KeyState, mtu: nat) {
    forall i :: 0 <= i < |out| ==> mtu >= Need(out[i], ks)
  }

  /** Away from the end, a sealing only counts up. */
  lemma {:induction false} SealingCounts(c: Counters, previous: bool)
    ensures var after := After(c, Sealed(previous));
            c.current + 1 < TWO_48 && c.previous + 1 < TWO_48 ==> after.current <= c.current + 1 && after.previous <= c.previous + 1
  {
    if c.current + 1 < TWO_48 { SmallMod(c.current + 1); }
    if c.previous + 1 < TWO_48 { SmallMod(c.previous + 1); }
  }

  /** A piece was sealed. */
  lemma {:induction false} ReadyStep(out: seq<Outgoing>, c: Cursor, p: Piece, ks: KeyState, counters: Counters, previous: bool, mtu: nat)
    requires Ready(out, c, ks, counters, mtu) && Advance(out, c, p).Some?
    ensures Ready(out, Advance(out, c, p).value, ks, After(counters, Sealed(previous)), mtu)
  {
    hide Work, Sealable, Total, BodyOf, After;
    WorkStep(out, c, p);
    SealingCounts(counters, previous);
  }

  lemma {:induction false} ReadySealable(out: seq<Outgoing>, c: Cursor, ks: KeyState, counters: Counters, mtu: nat)
    requires Ready(out, c, ks, counters, mtu) && c.written < |out|
    ensures Sealable(out[c.written], ks)
  {
  }

  /** A message that is ready is sealed, if there is room and the AEAD does not refuse. */
  lemma {:induction false} ReadySeals(out: seq<Outgoing>, c: Cursor, ks: KeyState, counters: Counters, mtu: nat, maxOut: nat,
                                      kind: byte, header: seq<byte>)
    requires Ready(out, c, ks, counters, mtu) && c.written < |out| && c.offset <= |BodyOf(out[c.written])|
    requires Bounded(ks.keys) && Bounded(ks.lastKeys) && Need(out[c.written], ks) <= maxOut <= mtu
    ensures Sealable(out[c.written], ks)
    ensures counters.current + 1 < TWO_48 && counters.previous + 1 < TWO_48
    ensures var m := out[c.written];
            var cipher := KeysOf(m, ks).seal(kind, ks.keys.version, header, PieceText(m, c.offset, ks, maxOut));
            cipher.Some? && RT_HEADER + |cipher.value| <= maxOut && |cipher.value| < 65536
  {
    PieceFits(out[c.written], c.offset, ks, maxOut);
    hide PieceText, Need, Sealable;
  }

  // ----- the messages a sender builds itself

  /** A submitted message is queued well formed. */
  lemma {:induction false} QueuedFormed(sent: seq<Transport.Sent>, m: Outgoing)
    requires QueuedFrom(sent, m) && forall i :: 0 <= i < |sent| ==> |sent[i].body| < TWO_24
    ensures m.isCcs || Formed(m)
  {
    if !m.isCcs {
      var i: nat :| i < |sent| && m.data == MessageBytes(sent, i);
      var f := Fragment(sent[i].kind, |sent[i].body|, i % TWO_16, 0, sent[i].body);
      FragmentRoundTrip(f, []);
      assert FragmentBytes(f) + [] == FragmentBytes(f);
    }
  }
}
