/** Sealing DTLS records: the write sequence numbers of the current and the previous epoch. */
module RecordWriter {
  import opened Bits
  import opened NetworkOrder
  import opened RecordReader

  // ----- the sequence counter

  /** The bytes of the next number, and whether there is one: all ones wrap around to zero. */
  function Increment(s: seq<byte>): (r: (seq<byte>, bool))
    ensures |r.0| == |s|
  {
    if s == [] then ([], false)
    else
      var i := |s| - 1;
      if s[i] != 255 then (s[..i] + [s[i] + 1], true)
      else var (t, ok) := Increment(s[..i]); (t + [0], ok)
  }

  lemma {:induction false} IncrementAdds(s: seq<byte>)
    ensures var (t, ok) := Increment(s);
            if ok then FromBigEndian(t) == FromBigEndian(s) + 1
            else FromBigEndian(t) == 0 && FromBigEndian(s) + 1 == Pow2(8 * |s|)
  {
    if s == [] { return; }
    var i := |s| - 1;
    var (t, ok) := Increment(s);
    if s[i] != 255 {
      assert t[..i] == s[..i];
    } else {
      IncrementAdds(s[..i]);
      assert t[..i] == Increment(s[..i]).0;
      Pow2Add(8, 8 * i);
      PowersOfTwo();
    }
  }

  /** t is s with the trailing run of 255s from position i on cleared, and the byte before it, if any,
      counted up. */
  ghost predicate CarriedOver(s: seq<byte>, t: seq<byte>, i: nat) {
    && |t| == |s| && i <= |s|
    && (forall k :: i <= k < |s| ==> s[k] == 255 && t[k] == 0)
    && (i > 0 ==> s[i - 1] != 255 && t[i - 1] == s[i - 1] + 1)
    && forall k :: 0 <= k < i - 1 ==> t[k] == s[k]
  }

  lemma {:induction false} IncrementCarries(s: seq<byte>, t: seq<byte>, i: nat)
    requires CarriedOver(s, t, i)
    ensures Increment(s) == (t, i > 0)
  {
    var n := |s|;
    if n == 0 {
    } else if i == n {
      assert t == s[..n - 1] + [s[n - 1] + 1];
    } else {
      IncrementCarries(s[..n - 1], t[..n - 1], i);
      assert t == t[..n - 1] + [0];
    }
  }

  /** Counts the bytes from start on up by one, from the last byte backwards. */
  method SequenceUpdate(a: array<byte>, start: nat) returns (ok: bool)
    requires start <= a.Length
    modifies a
    ensures a[..start] == old(a[..start])
    ensures (a[start..], ok) == Increment(old(a[start..]))
  {
    ghost var s := a[start..];
    var i: nat := a.Length - start;
    while i > 0
      invariant i <= |s| == a.Length - start
      invariant a[..start] == old(a[..start])
      invariant forall k :: 0 <= k < i ==> a[start + k] == s[k]
      invariant forall k :: i <= k < |s| ==> s[k] == 255 && a[start + k] == 0
    {
      i := i - 1;
      var next: int := a[start + i];
      a[start + i] := (next + 1) % 256;
      if a[start + i] != 0 {
        IncrementCarries(s, a[start..], i + 1);
        return true;
      }
    }
    IncrementCarries(s, a[start..], 0);
    ok := false;
  }

  // ----- which epoch and number each sealed record uses

  /** The 16-bit epoch and the two 48-bit counters. */
  datatype Counters = Counters(epoch: nat, current: nat, previous: nat)

  /** A record protected under the current or the previous epoch, or a change of the write keys. */
  datatype Op = Sealed(previous: bool) | Rekeyed

  const START := Counters(0, 0, 0)

  function PairOf(c: Counters, previous: bool): (nat, nat) {
    if previous then ((c.epoch + 65535) % 65536, c.previous) else (c.epoch, c.current)
  }

  function After(c: Counters, op: Op): Counters {
    match op
    case Sealed(false) => c.(current := (c.current + 1) % TWO_48)
    case Sealed(true) => c.(previous := (c.previous + 1) % TWO_48)
    case Rekeyed => Counters((c.epoch + 1) % 65536, 0, c.current)
  }

  /** The counters after a run. */
  function State(ops: seq<Op>): Counters {
    if ops == [] then START else After(State(ops[..|ops| - 1]), ops[|ops| - 1])
  }

  /** The pairs used over a run, in order. */
  function Pairs(ops: seq<Op>): seq<(nat, nat)> {
    if ops == [] then []
    else
      var before := ops[..|ops| - 1];
      match ops[|ops| - 1]
      case Sealed(previous) => Pairs(before) + [PairOf(State(before), previous)]
      case Rekeyed => Pairs(before)
  }

  /** The previous epoch is only used when there is one, and the epoch does not wrap. */
  predicate Legal(ops: seq<Op>) {
    ops == [] ||
    (var before := ops[..|ops| - 1];
     && Legal(before)
     && match ops[|ops| - 1]
        case Sealed(previous) => previous ==> State(before).epoch >= 1
        case Rekeyed => State(before).epoch < 65535)
  }

  /** How many records epoch e has sealed. */
  function Count(pairs: seq<(nat, nat)>, e: nat): nat {
    if pairs == [] then 0
    else Count(pairs[..|pairs| - 1], e) + if pairs[|pairs| - 1].0 == e then 1 else 0
  }

  lemma {:induction false} CountMore(pairs: seq<(nat, nat)>, p: (nat, nat), e: nat)
    ensures Count(pairs + [p], e) == Count(pairs, e) + if p.0 == e then 1 else 0
  {
    assert (pairs + [p])[..|pairs|] == pairs;
  }

  /** Each counter holds the number of records its epoch has sealed, modulo 2^48. */
  ghost predicate Counted(c: Counters, pairs: seq<(nat, nat)>) {
    && c.epoch < 65536
    && c.current == Count(pairs, c.epoch) % TWO_48
    && (c.epoch >= 1 ==> c.previous == Count(pairs, c.epoch - 1) % TWO_48)
    && forall e: nat :: e > c.epoch ==> Count(pairs, e) == 0
  }

  lemma {:induction false} SealedCounted(c: Counters, pairs: seq<(nat, nat)>, previous: bool)
    requires Counted(c, pairs) && (previous ==> c.epoch >= 1)
    ensures Counted(After(c, Sealed(previous)), pairs + [PairOf(c, previous)])
  {
    var p := PairOf(c, previous);
    assert p.0 == if previous then c.epoch - 1 else c.epoch;
    forall e: nat ensures Count(pairs + [p], e) == Count(pairs, e) + if p.0 == e then 1 else 0 {
      CountMore(pairs, p, e);
    }
    hide Count, PairOf;
    AddOneMod(Count(pairs, p.0));
  }

  lemma {:induction false} CountersCount(ops: seq<Op>)
    requires Legal(ops)
    ensures Counted(State(ops), Pairs(ops))
  {
    hide Counted, After, PairOf;
    if ops == [] {
      assert Counted(START, []) by { EmptyCounted(); }
      return;
    }
    var before, op := ops[..|ops| - 1], ops[|ops| - 1];
    CountersCount(before);
    if op.Sealed? {
      SealedCounted(State(before), Pairs(before), op.previous);
    } else {
      RekeyedCounted(State(before), Pairs(before));
    }
  }

  lemma {:induction false} EmptyCounted()
    ensures Counted(START, [])
  {
  }

  lemma {:induction false} RekeyedCounted(c: Counters, pairs: seq<(nat, nat)>)
    requires Counted(c, pairs) && c.epoch < 65535
    ensures Counted(After(c, Rekeyed), pairs)
  {
    hide Count;
    assert Count(pairs, c.epoch + 1) == 0;
  }

  lemma {:induction false} AddOneMod(n: nat)
    ensures (n % TWO_48 + 1) % TWO_48 == (n + 1) % TWO_48
  {
  }

  /** The pair a record uses: its epoch, and how many that epoch had sealed before, modulo 2^48. */
  lemma {:induction false} PairAt(ops: seq<Op>, i: nat)
    requires Legal(ops) && i < |Pairs(ops)|
    ensures Pairs(ops)[i].1 == Count(Pairs(ops)[..i], Pairs(ops)[i].0) % TWO_48
  {
    hide Counted, PairOf, Count;
    var before, op := ops[..|ops| - 1], ops[|ops| - 1];
    if i < |Pairs(before)| {
      PairAt(before, i);
      assert Pairs(ops)[..i] == Pairs(before)[..i];
    } else {
      CountersCount(before);
      PairCounted(State(before), Pairs(before), op.previous);
      assert Pairs(ops)[..i] == Pairs(before);
    }
  }

  lemma {:induction false} PairCounted(c: Counters, pairs: seq<(nat, nat)>, previous: bool)
    requires Counted(c, pairs) && (previous ==> c.epoch >= 1)
    ensures var p := PairOf(c, previous); p.1 == Count(pairs, p.0) % TWO_48
  {
    hide Count;
  }

  lemma {:induction false} CountMonotone(pairs: seq<(nat, nat)>, e: nat, i: nat, j: nat)
    requires i <= j <= |pairs|
    ensures Count(pairs[..i], e) <= Count(pairs[..j], e)
    ensures i < j && pairs[i].0 == e ==> Count(pairs[..i], e) < Count(pairs[..j], e)
  {
    if i < j {
      CountMonotone(pairs, e, i, j - 1);
      assert pairs[..j][..j - 1] == pairs[..j - 1];
    }
  }

  /** Some record of epoch e was its k-th. */
  lemma {:induction false} NthRecord(pairs: seq<(nat, nat)>, e: nat, k: nat) returns (i: nat)
    requires k < Count(pairs, e)
    ensures i < |pairs| && pairs[i].0 == e && Count(pairs[..i], e) == k
  {
    var n := |pairs| - 1;
    if k < Count(pairs[..n], e) {
      i := NthRecord(pairs[..n], e, k);
      assert pairs[..n][..i] == pairs[..i];
    } else {
      i := n;
    }
  }

  ghost predicate Distinct(pairs: seq<(nat, nat)>) {
    forall i, j :: 0 <= i < j < |pairs| ==> pairs[i] != pairs[j]
  }

  ghost predicate WithinLimit(pairs: seq<(nat, nat)>) {
    forall e: nat :: Count(pairs, e) <= TWO_48
  }

  /** Over every run of new records, retransmissions under the previous epoch and key changes, no
      (epoch, number) pair is used twice exactly when no epoch seals more than 2^48 records.  (The
      counter of an epoch that does wraps to zero; the call that wraps it reports failure, but a
      later call goes on from zero.) */
  lemma {:induction false} NoPairReused(ops: seq<Op>)
    requires Legal(ops)
    ensures Distinct(Pairs(ops)) <==> WithinLimit(Pairs(ops))
  {
    var pairs := Pairs(ops);
    if WithinLimit(pairs) {
      forall i, j | 0 <= i < j < |pairs|
        ensures pairs[i] != pairs[j]
      {
        if pairs[i] == pairs[j] { SamePair(ops, i, j); }
      }
    } else {
      var e: nat :| Count(pairs, e) > TWO_48;
      var i := NthRecord(pairs, e, 0);
      var j := NthRecord(pairs, e, TWO_48);
      PairAt(ops, i);
      PairAt(ops, j);
      assert pairs[i] == pairs[j];
      assert i != j;
    }
  }

  lemma {:induction false} SamePair(ops: seq<Op>, i: nat, j: nat)
    requires Legal(ops) && i < j < |Pairs(ops)| && WithinLimit(Pairs(ops))
    ensures Pairs(ops)[i] != Pairs(ops)[j]
  {
    hide Count, Pairs, Legal;
    var pairs := Pairs(ops);
    var e := pairs[i].0;
    if pairs[j].0 == e {
      PairAt(ops, i);
      PairAt(ops, j);
      CountMonotone(pairs, e, i, j);
      CountMonotone(pairs, e, j, |pairs|);
      assert pairs[..|pairs|] == pairs;
      assert Count(pairs, e) <= TWO_48;
      SmallMod(Count(pairs[..i], e));
      SmallMod(Count(pairs[..j], e));
    }
  }

  /** n new records, sealed one after the other in the first epoch. */
  function Burst(n: nat): seq<Op> { if n == 0 then [] else Burst(n - 1) + [Sealed(false)] }

  lemma {:induction false} BurstPairs(n: nat)
    ensures Legal(Burst(n)) && State(Burst(n)).epoch == 0
    ensures |Pairs(Burst(n))| == n && Count(Pairs(Burst(n)), 0) == n
  {
    if n == 0 { return; }
    BurstPairs(n - 1);
    assert Burst(n)[..|Burst(n)| - 1] == Burst(n - 1);
    CountMore(Pairs(Burst(n - 1)), PairOf(State(Burst(n - 1)), false), 0);
  }

  /** The limit can be passed: 2^48 + 1 records in one epoch are a legal run, and its last record
      repeats a pair. */
  lemma {:induction false} PairReused()
    ensures var ops := Burst(TWO_48 + 1); Legal(ops) && !Distinct(Pairs(ops))
  {
    hide Legal, Pairs, Burst, Count, State;
    var ops := Burst(TWO_48 + 1);
    BurstPairs(TWO_48 + 1);
    assert Count(Pairs(ops), 0) > TWO_48;
    NoPairReused(ops);
  }

  lemma {:induction false} SmallMod(n: nat)
    requires n < TWO_48
    ensures n % TWO_48 == n
  {
  }

  // ----- sealing

  /** AEAD sealing under one set of keys: type, version, sequence bytes and plaintext to ciphertext. */
  datatype SealKeys = SealKeys(version: nat, nonceLen: nat, maxOverhead: nat,
                               seal: (byte, nat, seq<byte>, seq<byte>) -> Option<seq<byte>>)

  /** The ciphertext is longer than the plaintext by the stated overhead at most. */
  ghost predicate Bounded(keys: SealKeys) {
    && keys.nonceLen <= keys.maxOverhead && keys.version < 65536
    && forall kind, version, seq_, in_ :: var c := keys.seal(kind, version, seq_, in_);
         c.Some? ==> |c.value| <= |in_| + keys.maxOverhead
  }

  /** A sealed record on the wire. */
  function RecordBytes(kind: byte, version: nat, pair: (nat, nat), cipher: seq<byte>): seq<byte> {
    [kind] + BigEndian(version, 2) + BigEndian(pair.0, 2) + BigEndian(pair.1, 6) + BigEndian(|cipher|, 2) + cipher
  }

  lemma {:induction false} SixBytes(n: nat)
    ensures BigEndian(n, 2) == [n / 0x100 % 256, n % 256]
    ensures BigEndian(n, 6) == [n / 0x100_0000_0000 % 256, n / 0x1_0000_0000 % 256, n / 0x100_0000 % 256,
                                n / 0x1_0000 % 256, n / 0x100 % 256, n % 256]
  {
    var a, b, c := n / 0x100, n / 0x1_0000, n / 0x100_0000;
    var d, e := n / 0x1_0000_0000, n / 0x100_0000_0000;
    LastByte(n, 1);
    LastByte(a, 0);
    LastByte(n, 5);
    LastByte(a, 4);
    LastByte(b, 3);
    LastByte(c, 2);
    LastByte(d, 1);
    LastByte(e, 0);
    hide BigEndian;
    assert a / 256 == b && b / 256 == c && c / 256 == d && d / 256 == e;
  }

  lemma {:induction false} LastByte(n: nat, k: nat)
    ensures BigEndian(n, k + 1) == BigEndian(n / 256, k) + [n % 256] && BigEndian(n, 0) == []
  {
  }

  lemma {:induction false} TopByte(n: nat, p: nat)
    requires p > 0 && n < 256 * p
    ensures n / p < 256 && n / p % 256 == n / p
  {
  }

  lemma {:induction false} JoinBytes(a: seq<byte>, b: seq<byte>, c: seq<byte>, d: seq<byte>, e: seq<byte>, rest: seq<byte>)
    requires |a| == 1 && |b| == |c| == |e| == 2 && |d| == 6
    ensures a + b + c + d + e + rest == [a[0], b[0], b[1], c[0], c[1], d[0], d[1], d[2], d[3], d[4], d[5], e[0], e[1]] + rest
  {
  }

  /** The thirteen bytes before the ciphertext: type, version, epoch, number and length. */
  lemma {:induction false} RecordLiteral(kind: byte, version: nat, pair: (nat, nat), cipher: seq<byte>)
    requires version < 65536 && pair.0 < 65536 && pair.1 < 0x1_0000_0000_0000 && |cipher| < 65536
    ensures version / 0x100 < 256 && pair.0 / 0x100 < 256 && pair.1 / 0x100_0000_0000 < 256 && |cipher| / 0x100 < 256
    ensures RecordBytes(kind, version, pair, cipher) ==
            [kind, version / 0x100, version % 256, pair.0 / 0x100, pair.0 % 256, pair.1 / 0x100_0000_0000,
             pair.1 / 0x1_0000_0000 % 256, pair.1 / 0x100_0000 % 256, pair.1 / 0x1_0000 % 256, pair.1 / 0x100 % 256,
             pair.1 % 256, |cipher| / 0x100, |cipher| % 256] + cipher
  {
    hide BigEndian;
    SixBytes(version);
    SixBytes(pair.0);
    SixBytes(pair.1);
    SixBytes(|cipher|);
    TopByte(version, 0x100);
    TopByte(pair.0, 0x100);
    TopByte(pair.1, 0x100_0000_0000);
    TopByte(|cipher|, 0x100);
    JoinBytes([kind], BigEndian(version, 2), BigEndian(pair.0, 2), BigEndian(pair.1, 6), BigEndian(|cipher|, 2), cipher);
  }

  /** The receiver finds in a sealed record what went into it, and its number is epoch and counter. */
  lemma {:induction false} RecordParses(kind: byte, version: nat, pair: (nat, nat), cipher: seq<byte>, rest: seq<byte>)
    requires version < 65536 && pair.0 < 65536 && pair.1 < TWO_48 && |cipher| <= MAX_ENCRYPTED
    ensures var h := ParseHeader(RecordBytes(kind, version, pair, cipher) + rest);
            && h == Header(kind, version, BigEndian(pair.0, 2) + BigEndian(pair.1, 6), cipher)
            && FromBigEndian(h.seq_) == pair.0 * TWO_48 + pair.1
  {
    Pow2_48();
    PowersOfTwo();
    hide Pow2;
    BigEndianRoundTrip(version, 2);
    BigEndianRoundTrip(pair.0, 2);
    BigEndianRoundTrip(pair.1, 6);
    BigEndianRoundTrip(|cipher|, 2);
    FromBigEndianSplit(BigEndian(pair.0, 2), BigEndian(pair.1, 6));
    hide BigEndian, FromBigEndian;
    Layout(kind, BigEndian(version, 2), BigEndian(pair.0, 2), BigEndian(pair.1, 6), BigEndian(|cipher|, 2), cipher, rest);
  }

  /** A ciphertext over the limit makes the record unreadable. */
  lemma {:induction false} RecordTooLong(kind: byte, version: nat, pair: (nat, nat), cipher: seq<byte>, rest: seq<byte>)
    requires 16704 < |cipher| < 65536
    ensures ParseHeader(RecordBytes(kind, version, pair, cipher) + rest).Malformed?
  {
    PowersOfTwo();
    hide Pow2;
    BigEndianRoundTrip(|cipher|, 2);
    hide BigEndian, FromBigEndian;
    Layout(kind, BigEndian(version, 2), BigEndian(pair.0, 2), BigEndian(pair.1, 6), BigEndian(|cipher|, 2), cipher, rest);
  }

  lemma {:induction false} Layout(kind: byte, v: seq<byte>, e: seq<byte>, q: seq<byte>, l: seq<byte>, c: seq<byte>, rest: seq<byte>)
    requires |v| == |e| == |l| == 2 && |q| == 6
    ensures var s := [kind] + v + e + q + l + c + rest;
            && |s| == RT_HEADER + |c| + |rest| && s[0] == kind && s[1..3] == v && s[3..11] == e + q
            && s[11..13] == l && s[RT_HEADER..RT_HEADER + |c|] == c
  {
  }

  class Writer {
    var epoch: nat
    var keys: SealKeys
    var lastKeys: SealKeys
    const writeSequence: array<byte>
    const lastWriteSequence: array<byte>
    /** Every AEAD sealing and key change so far. */
    ghost var ops: seq<Op>

    ghost predicate Valid()
      reads this, writeSequence, lastWriteSequence
    {
      && writeSequence.Length == lastWriteSequence.Length == 8 && writeSequence != lastWriteSequence
      && Bounded(keys) && Bounded(lastKeys)
      && State(ops) == Counters(epoch, FromBigEndian(writeSequence[2..]), FromBigEndian(lastWriteSequence[2..]))
      && epoch < 65536
    }

    ghost function Repr(): set<object> { {this, writeSequence, lastWriteSequence} }

    function KeysFor(previous: bool): SealKeys
      reads this
    {
      if previous then lastKeys else keys
    }

    function MaxSealOverhead(previous: bool): nat
      reads this
    {
      RT_HEADER + KeysFor(previous).maxOverhead
    }

    function SealPrefixLen(previous: bool): nat
      reads this
    {
      RT_HEADER + KeysFor(previous).nonceLen
    }

    constructor (keys: SealKeys)
      requires Bounded(keys)
      ensures Valid() && fresh(Repr()) && ops == [] && this.keys == keys && epoch == 0
    {
      this.keys, lastKeys, epoch, ops := keys, keys, 0, [];
      writeSequence := new byte[8](_ => 0);
      lastWriteSequence := new byte[8](_ => 0);
      new;
      ZeroBytes(writeSequence[2..]);
      ZeroBytes(lastWriteSequence[2..]);
    }

    /** The sequence bytes of the next record: epoch and counter. */
    method SequenceBytes(previous: bool) returns (header: seq<byte>)
      requires Valid() && (previous ==> epoch >= 1)
      ensures var pair := PairOf(State(ops), previous); header == BigEndian(pair.0, 2) + BigEndian(pair.1, 6)
    {
      hide FromBigEndian, BigEndian, State, Bounded;
      BigEndianInverse(writeSequence[2..]);
      BigEndianInverse(lastWriteSequence[2..]);
      header := if previous then BigEndian(epoch - 1, 2) + lastWriteSequence[2..]
                else BigEndian(epoch, 2) + writeSequence[2..];
    }

    /** Uses up the next pair; fails when that wraps the counter. */
    method Advance(previous: bool) returns (ok: bool)
      requires Valid() && (previous ==> epoch >= 1)
      modifies this`ops, writeSequence, lastWriteSequence
      ensures Valid() && ops == old(ops) + [Sealed(previous)]
      ensures ok == (PairOf(State(old(ops)), previous).1 + 1 < TWO_48)
    {
      StateAfter(ops, Sealed(previous));
      hide FromBigEndian, State;
      if previous {
        CountModulo(lastWriteSequence[2..]);
        ok := SequenceUpdate(lastWriteSequence, 2);
      } else {
        CountModulo(writeSequence[2..]);
        ok := SequenceUpdate(writeSequence, 2);
      }
      ops := ops + [Sealed(previous)];
    }

    /** What the AEAD makes of the next record, if it does not fail and there is room for it. */
    ghost function Ciphertext(kind: byte, in_: seq<byte>, previous: bool, maxOut: nat, fails: bool): Option<seq<byte>>
      reads this
    {
      var pair := PairOf(State(ops), previous);
      var c := KeysFor(previous).seal(kind, keys.version, BigEndian(pair.0, 2) + BigEndian(pair.1, 6), in_);
      if maxOut < RT_HEADER || fails || c.None? || |c.value| > maxOut - RT_HEADER then None else c
    }

    /** Protects one record of at most maxOut bytes, unless the AEAD fails on it.  When sealing has used up a
        pair the counter has moved on, even if the call then fails: because the counter wrapped, or the
        ciphertext is too long for its length field. */
    method SealRecord(kind: byte, in_: seq<byte>, previous: bool, maxOut: nat, fails: bool)
      returns (record: Option<seq<byte>>, ghost cipher: seq<byte>)
      requires Valid() && (previous ==> epoch >= 1)
      modifies this`ops, writeSequence, lastWriteSequence
      ensures Valid()
      ensures var c := old(Ciphertext(kind, in_, previous, maxOut, fails));
              && ops == old(ops) + (if c.Some? then [Sealed(previous)] else [])
              && (record.Some? <==> c.Some? && PairOf(State(old(ops)), previous).1 + 1 < TWO_48 && |c.value| < 65536)
      ensures record.Some? ==>
                var pair := PairOf(State(old(ops)), previous);
                && ops == old(ops) + [Sealed(previous)] && pair.1 + 1 < TWO_48
                && KeysFor(previous).seal(kind, keys.version, BigEndian(pair.0, 2) + BigEndian(pair.1, 6), in_) == Some(cipher)
                && |cipher| < 65536 && record.value == RecordBytes(kind, keys.version, pair, cipher)
                && |record.value| <= maxOut && |record.value| <= |in_| + MaxSealOverhead(previous)
    {
      hide Bounded, BigEndian, FromBigEndian, State, PairOf;
      record, cipher := None, [];
      var aead := if previous then lastKeys else keys;
      if maxOut < RT_HEADER { return; }
      var version := keys.version;
      var header := SequenceBytes(previous);
      ghost var pair := PairOf(State(ops), previous);
      var c := aead.seal(kind, version, header, in_);
      if fails || c.None? || |c.value| > maxOut - RT_HEADER { return; }
      cipher := c.value;
      SealBound(aead, kind, version, header, in_);
      var ok := Advance(previous);
      if !ok || |c.value| >= 65536 { return; }
      record := Some([kind] + BigEndian(version, 2) + header + BigEndian(|c.value|, 2) + c.value);
      assert record.value == RecordBytes(kind, version, pair, cipher);
    }

    /** The next write epoch: its counter starts at zero, the old one is kept for retransmissions. */
    method SetWriteState(next: SealKeys)
      requires Valid() && Bounded(next)
      modifies this, writeSequence, lastWriteSequence
      ensures Valid() && ops == old(ops) + [Rekeyed] && keys == next && lastKeys == old(keys)
      ensures epoch == (old(epoch) + 1) % 65536
      ensures old(Legal(ops)) && old(epoch) < 65535 ==> Legal(ops)
    {
      StateAfter(ops, Rekeyed);
      assert (ops + [Rekeyed])[..|ops|] == ops;
      epoch := (epoch + 1) % 65536;
      forall i | 0 <= i < 8 { lastWriteSequence[i] := writeSequence[i]; }
      assert lastWriteSequence[2..] == old(writeSequence[2..]);
      forall i | 0 <= i < 8 { writeSequence[i] := 0; }
      ZeroBytes(writeSequence[2..]);
      assert lastWriteSequence[2..] == old(writeSequence[2..]);
      lastKeys := keys;
      keys := next;
      ops := ops + [Rekeyed];
    }
  }

  lemma {:induction false} ZeroBytes(s: seq<byte>)
    requires forall k :: 0 <= k < |s| ==> s[k] == 0
    ensures FromBigEndian(s) == 0
  {
    if s != [] { ZeroBytes(s[..|s| - 1]); }
  }

  lemma {:induction false} SealBound(keys: SealKeys, kind: byte, version: nat, seq_: seq<byte>, in_: seq<byte>)
    requires Bounded(keys)
    ensures var c := keys.seal(kind, version, seq_, in_); c.Some? ==> |c.value| <= |in_| + keys.maxOverhead
  {
  }

  lemma {:induction false} StateAfter(ops: seq<Op>, op: Op)
    ensures State(ops + [op]) == After(State(ops), op)
  {
    assert (ops + [op])[..|ops|] == ops;
  }

  lemma {:induction false} CountModulo(n: seq<byte>)
    requires |n| == 6
    ensures FromBigEndian(Increment(n).0) == (FromBigEndian(n) + 1) % TWO_48
    ensures Increment(n).1 == (FromBigEndian(n) + 1 < TWO_48)
  {
    IncrementAdds(n);
    Pow2_48();
    FromBigEndianBound(Increment(n).0);
    hide FromBigEndian, Increment, Pow2;
  }

  lemma {:induction false} BigEndianInverse(s: seq<byte>)
    ensures BigEndian(FromBigEndian(s), |s|) == s
  {
    if s != [] {
      BigEndianInverse(s[..|s| - 1]);
    }
  }
}
