/** Opening DTLS records: header, epoch filter, replay window, authentication. */
module RecordReader {
  import opened Bits
  import opened NetworkOrder
  import opened ReplayWindow
  import Varint

  const RT_HEADER: nat := 13
  const MAX_ENCRYPTED: nat := 16704
  const MAX_PLAIN: nat := 16384
  const RT_ALERT: byte := 21
  const VERSION_MAJOR: nat := 0xfe
  const TWO_48: nat := 0x1_0000_0000_0000

  /** The outcome of a call; an authentic alert is handed to the alert code, which is not modelled. */
  datatype Opened = CloseNotify | Partial | Discard | Error | Alert(body: seq<byte>) | Success(kind: byte, body: seq<byte>)

  datatype Header = Malformed | Header(kind: byte, version: nat, seq_: seq<byte>, body: seq<byte>)

  /** The record at the front of a datagram. */
  function ParseHeader(s: seq<byte>): (h: Header)
    ensures h.Header? ==> |h.seq_| == 8 && |h.body| <= MAX_ENCRYPTED && RT_HEADER + |h.body| <= |s|
  {
    if |s| < RT_HEADER then Malformed
    else
      var len := FromBigEndian(s[11..13]);
      if RT_HEADER + len > |s| || len > MAX_ENCRYPTED then Malformed
      else Header(s[0], FromBigEndian(s[1..3]), s[3..11], s[RT_HEADER..RT_HEADER + len])
  }

  /** AEAD opening: type, version, sequence bytes and ciphertext to plaintext, if authentic. */
  type Opener = (byte, nat, seq<byte>, seq<byte>) -> Option<seq<byte>>

  /** The read protection of one epoch. */
  datatype Keys = Keys(nullCipher: bool, version: nat, open: Opener)

  predicate VersionOk(keys: Keys, version: nat) {
    if keys.nullCipher then version / 256 == VERSION_MAJOR else version == keys.version
  }

  datatype Verdict = Drop | Overflow | Accept(n: nat, kind: byte, body: seq<byte>)

  /** What becomes of the record at the front of a datagram: it is accepted when it is well formed,
      of the read epoch, not refused as a replay, and authentic. */
  ghost function Judge(epoch: nat, keys: Keys, recorded: set<nat>, s: seq<byte>): Verdict {
    match ParseHeader(s)
    case Malformed => Drop
    case Header(kind, version, seq_, body) =>
      var n := FromBigEndian(seq_);
      if VersionOk(keys, version) && n / TWO_48 == epoch && !Refused(recorded, n) then
        match keys.open(kind, version, seq_, body)
        case None => Drop
        case Some(plain) => if |plain| > MAX_PLAIN then Overflow else Accept(n, kind, plain)
      else Drop
  }

  lemma {:induction false} Pow2_48()
    ensures Pow2(48) == TWO_48
  {
    Varint.Pow2_32();
    PowersOfTwo();
    hide Pow2;
    Pow2Add(8, 8);
    Pow2Add(32, 16);
  }

  lemma {:induction false} EpochBytes(s: seq<byte>)
    requires |s| == 8
    ensures var high: nat, low: nat := s[0], s[1]; FromBigEndian(s) / TWO_48 == 256 * high + low
  {
    var hi, lo := s[..2], s[2..];
    assert FromBigEndian(hi) == 256 * FromBigEndian(hi[..1]) + hi[1];
    assert FromBigEndian(hi[..1]) == hi[0] by { assert hi[..1][..0] == []; }
    assert hi + lo == s;
    hide FromBigEndian;
    FromBigEndianSplit(hi, lo);
    FromBigEndianBound(lo);
    Pow2_48();
    hide Pow2;
    DivideUnique(FromBigEndian(s), TWO_48, FromBigEndian(hi), FromBigEndian(lo));
  }

  class Reader {
    var epoch: nat
    var keys: Keys
    var readShutdown: bool
    const window: Window

    ghost predicate Valid()
      reads this, window
    {
      window.Valid() && epoch < 65536
    }

    constructor (keys: Keys)
      ensures Valid() && fresh(window) && window.recorded == {} && epoch == 0 && this.keys == keys && !readShutdown
    {
      window := new Window();
      this.keys, epoch, readShutdown := keys, 0, false;
    }

    /** The epoch number in the first two sequence bytes. */
    static method Epoch(s: seq<byte>) returns (e: nat)
      requires |s| == 8
      ensures e == FromBigEndian(s) / TWO_48
    {
      var high: nat, low: nat := s[0], s[1];
      e := 256 * high + low;
      EpochBytes(s);
    }

    method Open(in_: seq<byte>) returns (r: Opened, consumed: nat)
      requires Valid()
      modifies window
      ensures Valid() && consumed <= |in_|
      ensures if readShutdown || in_ == [] then
                && r == (if readShutdown then CloseNotify else Partial)
                && consumed == 0 && window.recorded == old(window.recorded)
              else
                var v := Judge(epoch, keys, old(window.recorded), in_);
                && r == (if v.Accept? then (if v.kind == RT_ALERT then Alert(v.body) else Success(v.kind, v.body))
                         else if v.Overflow? then Error else Discard)
                && window.recorded == old(window.recorded) + (if v.Accept? then {v.n} else {})
                && consumed == var h := ParseHeader(in_);
                               if h.Malformed? || !VersionOk(keys, h.version) then |in_| else RT_HEADER + |h.body|
    {
      consumed := 0;
      if readShutdown { return CloseNotify, 0; }
      if in_ == [] { return Partial, 0; }
      var h := ParseHeader(in_);
      if h.Malformed? { return Discard, |in_|; }
      if !VersionOk(keys, h.version) { return Discard, |in_|; }
      consumed := RT_HEADER + |h.body|;
      var recordEpoch := Epoch(h.seq_);
      if recordEpoch != epoch { return Discard, consumed; }
      var n := ToU64(h.seq_);
      var discard := window.ShouldDiscard(n);
      if discard { return Discard, consumed; }
      var plain := keys.open(h.kind, h.version, h.seq_, h.body);
      if plain.None? { return Discard, consumed; }
      if |plain.value| > MAX_PLAIN { return Error, consumed; }
      window.Record(n);
      r := if h.kind == RT_ALERT then Alert(plain.value) else Success(h.kind, plain.value);
    }

    /** The record layer's share of a cipher change: the next epoch starts with an empty window. */
    method Rekey(next: Keys)
      requires Valid()
      modifies this`epoch, this`keys, window
      ensures Valid() && keys == next && window.recorded == {} && epoch == (old(epoch) + 1) % 65536
    {
      epoch := (epoch + 1) % 65536;
      window.Reset();
      keys := next;
    }
  }

  // ----- whole runs

  datatype Event = Datagram(s: seq<byte>) | NewKeys(keys: Keys)

  /** Numbers accepted over a run of datagrams and cipher changes. */
  ghost function Accepted(epoch: nat, keys: Keys, recorded: set<nat>, events: seq<Event>): seq<nat>
    decreases |events|
  {
    if events == [] then []
    else
      match events[0]
      case NewKeys(next) => Accepted((epoch + 1) % 65536, next, {}, events[1..])
      case Datagram(s) =>
        match Judge(epoch, keys, recorded, s)
        case Accept(n, _, _) => [n] + Accepted(epoch, keys, recorded + {n}, events[1..])
        case _ => Accepted(epoch, keys, recorded, events[1..])
  }

  function CipherChanges(events: seq<Event>): nat {
    if events == [] then 0 else CipherChanges(events[1..]) + if events[0].NewKeys? then 1 else 0
  }

  lemma {:induction false} JudgeFresh(epoch: nat, keys: Keys, recorded: set<nat>, s: seq<byte>)
    requires Judge(epoch, keys, recorded, s).Accept?
    ensures var n := Judge(epoch, keys, recorded, s).n; n / TWO_48 == epoch && n !in recorded
  {
  }

  lemma {:induction false} AcceptedFresh(epoch: nat, keys: Keys, recorded: set<nat>, events: seq<Event>)
    requires epoch + CipherChanges(events) < 65536
    ensures forall n :: n in Accepted(epoch, keys, recorded, events) ==>
              n / TWO_48 >= epoch && (n / TWO_48 == epoch ==> n !in recorded)
    decreases |events|
  {
    hide Judge;
    if events == [] { return; }
    if events[0].NewKeys? {
      AcceptedFresh(epoch + 1, events[0].keys, {}, events[1..]);
    } else {
      var v := Judge(epoch, keys, recorded, events[0].s);
      if v.Accept? {
        JudgeFresh(epoch, keys, recorded, events[0].s);
        AcceptedFresh(epoch, keys, recorded + {v.n}, events[1..]);
      } else {
        AcceptedFresh(epoch, keys, recorded, events[1..]);
      }
    }
  }

  /** While the 16-bit epoch does not wrap, no record number is accepted twice, whatever the network
      delivers, within an epoch or across them. */
  lemma {:induction false} NoReplay(epoch: nat, keys: Keys, recorded: set<nat>, events: seq<Event>, i: nat, j: nat)
    requires epoch + CipherChanges(events) < 65536
    requires i < j < |Accepted(epoch, keys, recorded, events)|
    ensures Accepted(epoch, keys, recorded, events)[i] != Accepted(epoch, keys, recorded, events)[j]
    decreases |events|
  {
    hide Judge;
    if events[0].NewKeys? {
      NoReplay(epoch + 1, events[0].keys, {}, events[1..], i, j);
      return;
    }
    var v := Judge(epoch, keys, recorded, events[0].s);
    if !v.Accept? {
      NoReplay(epoch, keys, recorded, events[1..], i, j);
    } else if i > 0 {
      NoReplay(epoch, keys, recorded + {v.n}, events[1..], i - 1, j - 1);
    } else {
      AcceptedFresh(epoch, keys, recorded + {v.n}, events[1..]);
      JudgeFresh(epoch, keys, recorded, events[0].s);
      var rest := Accepted(epoch, keys, recorded + {v.n}, events[1..]);
      assert rest[j - 1] in rest;
    }
  }
}
