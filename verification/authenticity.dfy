/** What authentication gives the receiver: a record that opens is one the peer has sealed. */
module Authenticity {
  import opened Bits
  import opened NetworkOrder
  import ReplayWindow
  import opened RecordReader
  import opened RecordWriter
  import opened FlightPass
  import opened SenderHistory

  /** Opening inverts sealing. */
  ghost predicate Paired(sealing: SealKeys, opening: Keys) {
    forall kind, version, header, plain :: Inverts(sealing, opening, kind, version, header, plain)
  }

  ghost predicate Inverts(sealing: SealKeys, opening: Keys, kind: byte, version: nat, header: seq<byte>, plain: seq<byte>) {
    var c := sealing.seal(kind, version, header, plain);
    c.Some? ==> opening.open(kind, version, header, c.value) == Some(plain)
  }

  /** The eight sequence bytes of a record. */
  function SequenceOf(d: SealedPiece): seq<byte> { BigEndian(d.pair.0, 2) + BigEndian(d.pair.1, 6) }

  /** The peer has sealed this plaintext under this number. */
  ghost predicate PeerSealed(network: seq<seq<SealedPiece>>, kind: byte, seq_: seq<byte>, plain: seq<byte>) {
    exists i, j :: 0 <= i < |network| && 0 <= j < |network[i]| && SealedFor(network[i][j], kind, seq_, plain)
  }

  predicate SealedFor(d: SealedPiece, kind: byte, seq_: seq<byte>, plain: seq<byte>) {
    d.kind == kind && SequenceOf(d) == seq_ && d.plain == plain
  }

  /** The bytes begin with one of the peer's records. */
  ghost predicate OnWire(network: seq<seq<SealedPiece>>, s: seq<byte>) {
    exists i, j :: 0 <= i < |network| && 0 <= j < |network[i]| && InFront(network[i][j], s)
  }

  predicate InFront(d: SealedPiece, s: seq<byte>) { d.record <= s }

  /** The datagram is no forgery.  Without encryption anything opens, so this says that the network made
      nothing up; with it, the datagram may be anything, as long as what opens was sealed by the peer. */
  ghost predicate Authentic(network: seq<seq<SealedPiece>>, keyring: seq<SealKeys>, epoch: nat, keys: Keys, s: seq<byte>) {
    if keys.nullCipher then OnWire(network, s) && epoch < |keyring| && Paired(keyring[epoch], keys)
    else
      match ParseHeader(s)
      case Malformed => true
      case Header(kind, version, seq_, body) =>
        var plain := keys.open(kind, version, seq_, body);
        plain.Some? ==> PeerSealed(network, kind, seq_, plain.value)
  }

  /** The receiver takes from a datagram that begins with a record what went into the record. */
  lemma {:induction false} FrontOpens(d: SealedPiece, keyring: seq<SealKeys>, epoch: nat, keys: Keys, recorded: set<nat>, s: seq<byte>)
    requires SealedUnder(keyring, d) && InFront(d, s) && epoch < |keyring| <= 65536 && Paired(keyring[epoch], keys)
    ensures var v := Judge(epoch, keys, recorded, s); v.Accept? ==> SealedFor(d, v.kind, SequenceOf(d), v.body)
  {
    var version: nat :| version < 65536 && SealedAs(keyring[d.pair.0], version, d);
    hide Paired, RecordBytes, ParseHeader, BigEndian, FromBigEndian;
    var rest := s[|d.record|..];
    assert s == RecordBytes(d.kind, version, d.pair, d.cipher) + rest;
    if |d.cipher| > MAX_ENCRYPTED {
      RecordTooLong(d.kind, version, d.pair, d.cipher, rest);
    } else {
      RecordParses(d.kind, version, d.pair, d.cipher, rest);
      if Judge(epoch, keys, recorded, s).Accept? {
        assert d.pair.0 == epoch by { EpochPart(d.pair.0, d.pair.1); }
        OpensPaired(keyring[epoch], keys, d.kind, version, SequenceOf(d), d.plain);
      }
    }
  }

  /** The version in a record is one the receiver takes: any DTLS version before the keys are negotiated, and
      then the negotiated one. */
  predicate VersionFits(keys: Keys, version: nat) {
    if keys.nullCipher then 0xfe00 <= version <= 0xfeff else version == keys.version
  }

  /** A number that was not recorded, and is not 64 or more below a recorded one. */
  ghost predicate Fresh(recorded: set<nat>, n: nat) {
    n !in recorded && forall r :: r in recorded ==> r < n + 64
  }

  /** The number of a record of epoch e. */
  function NumberOf(d: SealedPiece): nat { d.pair.0 * 0x1_0000_0000_0000 + d.pair.1 }

  /** The limits on a record's two lengths. */
  predicate WithinLimits(d: SealedPiece) { |d.cipher| <= 16704 && |d.plain| <= 16384 }

  /** The receiver finds a record where it begins, and takes as much of the datagram as it is long. */
  lemma {:induction false} FrontParses(d: SealedPiece, version: nat, keys: Keys, s: seq<byte>)
    requires d.record == RecordBytes(d.kind, version, d.pair, d.cipher) && InFront(d, s)
    requires d.pair.0 < 65536 && d.pair.1 < 0x1_0000_0000_0000 && |d.cipher| <= 16704
    requires version < 65536 && VersionFits(keys, version)
    ensures ParseHeader(s).Header? && VersionOk(keys, ParseHeader(s).version) && RT_HEADER + |ParseHeader(s).body| == |d.record|
    ensures FromBigEndian(ParseHeader(s).seq_) == NumberOf(d)
  {
    hide ParseHeader, BigEndian, FromBigEndian;
    var rest := s[|d.record|..];
    assert s == RecordBytes(d.kind, version, d.pair, d.cipher) + rest;
    RecordParses(d.kind, version, d.pair, d.cipher, rest);
    RecordLength(d.kind, version, d.pair, d.cipher);
    hide RecordBytes;
    VersionTaken(keys, version);
    hide VersionOk;
  }

  /** Genuine records are accepted: one of the reader's epoch, under matching keys, with a version it takes, not
      too long and not a replay, is accepted as what went into it, whatever follows it. */
  lemma {:induction false} FrontAccepted(d: SealedPiece, sealing: SealKeys, version: nat, epoch: nat, keys: Keys,
                                         recorded: set<nat>, s: seq<byte>)
    requires SealedAs(sealing, version, d) && Paired(sealing, keys) && InFront(d, s)
    requires d.pair.0 == epoch < 65536 && d.pair.1 < 0x1_0000_0000_0000 && WithinLimits(d)
    requires version < 65536 && VersionFits(keys, version) && Fresh(recorded, NumberOf(d))
    ensures Judge(epoch, keys, recorded, s) == Accept(NumberOf(d), d.kind, d.plain)
    ensures ParseHeader(s).Header? && VersionOk(keys, ParseHeader(s).version) && RT_HEADER + |ParseHeader(s).body| == |d.record|
  {
    hide Paired, ParseHeader, BigEndian, FromBigEndian;
    var rest := s[|d.record|..];
    assert s == RecordBytes(d.kind, version, d.pair, d.cipher) + rest;
    RecordParses(d.kind, version, d.pair, d.cipher, rest);
    RecordLength(d.kind, version, d.pair, d.cipher);
    hide RecordBytes;
    EpochPart(d.pair.0, d.pair.1);
    OpensPaired(sealing, keys, d.kind, version, SequenceOf(d), d.plain);
    VersionTaken(keys, version);
    FreshTaken(recorded, NumberOf(d));
    hide VersionOk, ReplayWindow.Refused;
  }

  /** A plaintext over the limit is an error. */
  lemma {:induction false} LongPlainRefused(d: SealedPiece, sealing: SealKeys, version: nat, epoch: nat, keys: Keys,
                                            recorded: set<nat>, s: seq<byte>)
    requires SealedAs(sealing, version, d) && Paired(sealing, keys) && InFront(d, s)
    requires d.pair.0 == epoch < 65536 && d.pair.1 < 0x1_0000_0000_0000 && |d.cipher| <= 16704 && |d.plain| > 16384
    requires version < 65536 && VersionFits(keys, version) && Fresh(recorded, NumberOf(d))
    ensures Judge(epoch, keys, recorded, s) == Overflow
  {
    hide Paired, ParseHeader, BigEndian, FromBigEndian;
    var rest := s[|d.record|..];
    assert s == RecordBytes(d.kind, version, d.pair, d.cipher) + rest;
    RecordParses(d.kind, version, d.pair, d.cipher, rest);
    hide RecordBytes;
    EpochPart(d.pair.0, d.pair.1);
    OpensPaired(sealing, keys, d.kind, version, SequenceOf(d), d.plain);
    VersionTaken(keys, version);
    FreshTaken(recorded, NumberOf(d));
    hide VersionOk, ReplayWindow.Refused;
  }

  /** The two length bytes of a record. */
  function LengthBytes(s: seq<byte>): nat
    requires |s| >= 13
  {
    var high: nat, low: nat := s[11], s[12];
    256 * high + low
  }

  /** A datagram too short for its header, or for the length that gives, is dropped, and so is a record that does
      not open. */
  lemma {:induction false} BrokenDropped(epoch: nat, keys: Keys, recorded: set<nat>, s: seq<byte>)
    requires || |s| < 13 || |s| < 13 + LengthBytes(s)
             || (ParseHeader(s).Header? && var h := ParseHeader(s); keys.open(h.kind, h.version, h.seq_, h.body).None?)
    ensures Judge(epoch, keys, recorded, s) == Drop
  {
    if |s| >= 13 {
      var v := s[11..13];
      assert v[..1] == [s[11]] && [s[11]][..0] == [];
      assert FromBigEndian([s[11]]) == s[11];
      assert FromBigEndian(v) == 256 * FromBigEndian(v[..1]) + v[1];
    }
  }

  lemma {:induction false} RecordLength(kind: byte, version: nat, pair: (nat, nat), cipher: seq<byte>)
    ensures |RecordBytes(kind, version, pair, cipher)| == RT_HEADER + |cipher|
  {
  }

  lemma {:induction false} VersionTaken(keys: Keys, version: nat)
    requires version < 65536
    ensures VersionOk(keys, version) <==> VersionFits(keys, version)
  {
  }

  lemma {:induction false} FreshTaken(recorded: set<nat>, n: nat)
    ensures ReplayWindow.Refused(recorded, n) <==> !Fresh(recorded, n)
  {
  }

  /** The two version bytes of a record. */
  function VersionBytes(s: seq<byte>): nat
    requires |s| >= 3
  {
    var high: nat, low: nat := s[1], s[2];
    256 * high + low
  }

  /** Any other version is dropped, with the whole datagram; before the keys are negotiated that is any
      version whose first byte is not 0xfe. */
  lemma {:induction false} OtherVersionDropped(epoch: nat, keys: Keys, recorded: set<nat>, s: seq<byte>)
    requires |s| >= 3 && (if keys.nullCipher then s[1] != 0xfe else VersionBytes(s) != keys.version)
    ensures Judge(epoch, keys, recorded, s) == Drop
    ensures ParseHeader(s).Malformed? || !VersionOk(keys, ParseHeader(s).version)
  {
    var v := s[1..3];
    assert v[..1] == [s[1]] && [s[1]][..0] == [];
    assert FromBigEndian([s[1]]) == s[1];
    assert FromBigEndian(v) == 256 * FromBigEndian(v[..1]) + v[1];
  }

  /** Of the records of the reader's epoch, a replay is dropped, and so is one too old to tell; other epochs
      are dropped altogether. */
  lemma {:induction false} StaleDropped(epoch: nat, keys: Keys, recorded: set<nat>, s: seq<byte>)
    requires ParseHeader(s).Header?
    requires var n := FromBigEndian(ParseHeader(s).seq_); n / 0x1_0000_0000_0000 != epoch || !Fresh(recorded, n)
    ensures Judge(epoch, keys, recorded, s) == Drop
  {
    FreshTaken(recorded, FromBigEndian(ParseHeader(s).seq_));
    hide ReplayWindow.Refused, FromBigEndian;
  }

  lemma {:induction false} OpensPaired(sealing: SealKeys, opening: Keys, kind: byte, version: nat, header: seq<byte>, plain: seq<byte>)
    requires Paired(sealing, opening)
    ensures Inverts(sealing, opening, kind, version, header, plain)
  {
  }

  lemma {:induction false} EpochPart(e: nat, n: nat)
    requires n < TWO_48
    ensures (e * TWO_48 + n) / TWO_48 == e
  {
  }

  /** What the record layer accepts from an authentic datagram, the peer has sealed. */
  lemma {:induction false} AcceptedSealed(network: seq<seq<SealedPiece>>, keyring: seq<SealKeys>, epoch: nat, keys: Keys,
                                          recorded: set<nat>, s: seq<byte>) returns (i: nat, j: nat)
    requires Authentic(network, keyring, epoch, keys, s) && Judge(epoch, keys, recorded, s).Accept? && |keyring| <= 65536
    requires forall k :: 0 <= k < |network| ==> AllSealedUnder(keyring, network[k])
    ensures i < |network| && j < |network[i]|
    ensures network[i][j].kind == Judge(epoch, keys, recorded, s).kind && network[i][j].plain == Judge(epoch, keys, recorded, s).body
  {
    hide SealedUnder, Paired;
    if keys.nullCipher {
      i, j :| 0 <= i < |network| && 0 <= j < |network[i]| && InFront(network[i][j], s);
      assert AllSealedUnder(keyring, network[i]);
      FrontOpens(network[i][j], keyring, epoch, keys, recorded, s);
    } else {
      var h := ParseHeader(s);
      var plain := keys.open(h.kind, h.version, h.seq_, h.body).value;
      i, j :| 0 <= i < |network| && 0 <= j < |network[i]| && SealedFor(network[i][j], h.kind, h.seq_, plain);
    }
  }
}
