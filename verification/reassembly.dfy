/** Putting one handshake message together from fragments, with a bit per byte received. */
module Reassembly {
  import opened Bits
  import opened HandshakeFormat

  // ----- what an incoming message is

  /** A message and which of its bytes have arrived, all of them under one read epoch. */
  datatype Assembly = Assembly(kind: byte, seq_: nat, epoch: nat, got: seq<Option<byte>>)

  predicate Complete(a: Assembly) { None !in a.got }

  /** The bytes of a complete message. */
  function Body(a: Assembly): (b: seq<byte>)
    requires Complete(a)
  {
    seq(|a.got|, k requires 0 <= k < |a.got| => a.got[k].value)
  }

  /** The message as if it had been sent in one piece. */
  function RawBytes(a: Assembly): seq<byte>
    requires Complete(a)
  {
    FragmentBytes(Fragment(a.kind, |a.got|, a.seq_, 0, Body(a)))
  }

  function Nothing(len: nat): seq<Option<byte>> { seq(len, _ => None) }

  /** A fragment arrives: an incomplete message takes its bytes, a complete one ignores them. */
  function Absorb(a: Assembly, off: nat, b: seq<byte>): Assembly {
    if Complete(a) then a
    else a.(got := seq(|a.got|, k requires 0 <= k < |a.got| => if off <= k < off + |b| then Some(b[k - off]) else a.got[k]))
  }

  /** Of bytes that come twice, the later ones stay, until the message is complete. */
  lemma {:induction false} LaterStays(a: Assembly, off: nat, b: seq<byte>, off': nat, b': seq<byte>, k: nat)
    requires k < |a.got|
    ensures var one := Absorb(a, off, b);
            var two := Absorb(one, off', b');
            && |two.got| == |a.got| && two.kind == a.kind && two.seq_ == a.seq_ && two.epoch == a.epoch
            && (!Complete(one) && off' <= k < off' + |b'| ==> two.got[k] == Some(b'[k - off']))
            && (!Complete(a) && off <= k < off + |b| && (Complete(one) || !(off' <= k < off' + |b'|)) ==> two.got[k] == Some(b[k - off]))
            && (Complete(a) ==> two == a)
  {
  }

  /** A slice of a body, from one position to another. */
  datatype Slice = Slice(from: nat, to: nat)

  ghost predicate SlicesOf(body: seq<byte>, slices: seq<Slice>) {
    forall i :: 0 <= i < |slices| ==> slices[i].from <= slices[i].to <= |body|
  }

  ghost predicate Covered(slices: seq<Slice>, k: nat) {
    exists i :: 0 <= i < |slices| && slices[i].from <= k < slices[i].to
  }

  function AbsorbAll(a: Assembly, body: seq<byte>, slices: seq<Slice>): Assembly
    requires SlicesOf(body, slices)
  {
    if slices == [] then a
    else
      var n := |slices| - 1;
      Absorb(AbsorbAll(a, body, slices[..n]), slices[n].from, body[slices[n].from..slices[n].to])
  }

  lemma {:induction false} CoveredMore(slices: seq<Slice>, k: nat)
    requires slices != []
    ensures var n := |slices| - 1;
            Covered(slices, k) <==> Covered(slices[..n], k) || slices[n].from <= k < slices[n].to
  {
    var n := |slices| - 1;
    if Covered(slices, k) {
      var i :| 0 <= i < |slices| && slices[i].from <= k < slices[i].to;
      if i < n { assert slices[..n][i] == slices[i]; }
    }
    if Covered(slices[..n], k) {
      var i :| 0 <= i < n && slices[..n][i].from <= k < slices[..n][i].to;
      assert slices[i] == slices[..n][i];
    }
  }

  /** Any slices of one message, in any order, overlapping and repeated, put it together exactly when
      they cover it; whatever is there is the message's. */
  lemma {:induction false} SlicesAssemble(a: Assembly, body: seq<byte>, slices: seq<Slice>)
    requires a.got == Nothing(|body|) && SlicesOf(body, slices)
    ensures var r := AbsorbAll(a, body, slices);
            && r == a.(got := r.got) && |r.got| == |body|
            && (forall k: nat :: k < |body| ==> r.got[k] == if Covered(slices, k) then Some(body[k]) else None)
            && (Complete(r) <==> forall k: nat :: k < |body| ==> Covered(slices, k))
            && (Complete(r) ==> Body(r) == body)
  {
    if slices == [] { return; }
    var n := |slices| - 1;
    var before := AbsorbAll(a, body, slices[..n]);
    SlicesAssemble(a, body, slices[..n]);
    var r := AbsorbAll(a, body, slices);
    forall k: nat | k < |body|
      ensures r.got[k] == if Covered(slices, k) then Some(body[k]) else None
    {
      CoveredMore(slices, k);
      if Complete(before) { assert before.got[k].Some?; }
    }
    hide Covered;
    if Complete(r) {
      forall k: nat | k < |body| ensures Covered(slices, k) { assert r.got[k].Some?; }
    }
  }

  // ----- the bitmask

  /** Bits start to end, the latter excluded, of a byte: computed in 32 bits and truncated. */
  function BitRange(start: nat, end: nat): byte
    requires start <= 8 && end <= 8
  {
    OnesBound(start);
    And(TWO_32 - 1 - (Pow2(start) - 1), Pow2(end) - 1) % 256
  }

  lemma {:induction false} OnesBound(n: nat)
    requires n <= 8
    ensures 1 <= Pow2(n) <= 256 && Pow2(8) == 256 && Pow2(32) == TWO_32
  {
    hide Pow2;
    PowersOfTwo();
    if n < 8 { Pow2Below(n, 8); }
    Pow2Add(16, 16);
  }

  lemma {:induction false} BitRangeBits(start: nat, end: nat, j: nat)
    requires start <= 8 && end <= 8
    ensures Bit(BitRange(start, end), j) <==> start <= j < end
  {
    hide Pow2, Bit, And;
    OnesBound(start);
    OnesBound(end);
    var low := Pow2(start) - 1;
    var a, b := TWO_32 - 1 - low, Pow2(end) - 1;
    BitTruncate(And(a, b), 8, j);
    BitAnd(a, b, j);
    BitOnes(end, j);
    if j < 8 {
      BitNot(low, 32, j);
      BitOnes(start, j);
    }
  }

  predicate On(b: byte, j: nat) { Bit(b, j) }

  predicate HasBit(mask: seq<byte>, k: nat)
    requires k < 8 * |mask|
  {
    On(mask[k / 8], k % 8)
  }

  /** new_ has the bits of old_ and those from lo to hi. */
  ghost predicate Marked(old_: seq<byte>, new_: seq<byte>, lo: nat, hi: nat) {
    && |new_| == |old_|
    && forall k: nat :: k < 8 * |old_| ==> (HasBit(new_, k) <==> HasBit(old_, k) || lo <= k < hi)
  }

  lemma {:induction false} OrByte(mask: seq<byte>, i: nat, start: nat, end: nat)
    requires i < |mask| && start <= 8 && end <= 8
    ensures Or(mask[i], BitRange(start, end)) < 256
    ensures Marked(mask, mask[i := Or(mask[i], BitRange(start, end))], 8 * i + start, 8 * i + end)
  {
    hide Or, BitRange, HasBit;
    OnesBound(8);
    OrBound(mask[i], BitRange(start, end), 8);
    var mask' := mask[i := Or(mask[i], BitRange(start, end))];
    forall k: nat | k < 8 * |mask|
      ensures HasBit(mask', k) <==> HasBit(mask, k) || 8 * i + start <= k < 8 * i + end
    {
      OrBit(mask, mask', i, start, end, k);
    }
  }

  lemma {:induction false} OrBit(mask: seq<byte>, mask': seq<byte>, i: nat, start: nat, end: nat, k: nat)
    requires i < |mask| && start <= 8 && end <= 8 && k < 8 * |mask|
    requires Or(mask[i], BitRange(start, end)) < 256 && mask' == mask[i := Or(mask[i], BitRange(start, end))]
    ensures HasBit(mask', k) <==> HasBit(mask, k) || 8 * i + start <= k < 8 * i + end
  {
    hide Or, Bit, BitRange;
    if k / 8 == i {
      BitOr(mask[i], BitRange(start, end), k % 8);
      BitRangeBits(start, end, k % 8);
    }
  }

  lemma {:induction false} AllBits(j: nat)
    requires j < 8
    ensures Bit(255, j)
  {
    OnesBound(8);
    BitOnes(8, j);
  }

  lemma {:induction false} FullByte(mask: seq<byte>, i: nat)
    requires i < |mask|
    ensures Marked(mask, mask[i := 255], 8 * i, 8 * i + 8)
  {
    hide HasBit;
    forall k: nat | k < 8 * |mask|
      ensures HasBit(mask[i := 255], k) <==> HasBit(mask, k) || 8 * i <= k < 8 * i + 8
    {
      FullBit(mask, i, k);
    }
  }

  lemma {:induction false} FullBit(mask: seq<byte>, i: nat, k: nat)
    requires i < |mask| && k < 8 * |mask|
    ensures HasBit(mask[i := 255], k) <==> HasBit(mask, k) || 8 * i <= k < 8 * i + 8
  {
    AllBits(k % 8);
  }

  lemma {:induction false} MarkedTwice(a: seq<byte>, b: seq<byte>, c: seq<byte>, lo: nat, mid: nat, hi: nat)
    requires Marked(a, b, lo, mid) && Marked(b, c, mid, hi) && lo <= mid <= hi
    ensures Marked(a, c, lo, hi)
  {
    hide HasBit;
  }

  /** A byte whose bits from n on are clear equals n ones exactly when its first n bits are set. */
  lemma {:induction false} FirstBits(b: byte, n: nat)
    requires n <= 8 && forall j: nat :: n <= j < 8 ==> !On(b, j)
    ensures b == BitRange(0, n) <==> forall j: nat :: j < n ==> On(b, j)
  {
    hide Bit, BitRange;
    OnesBound(8);
    forall j: nat ensures On(BitRange(0, n), j) <==> j < n { BitRangeBits(0, n, j); }
    if forall j: nat :: j < n ==> On(b, j) {
      forall j | 0 <= j < 8 ensures Bit(b, j) == Bit(BitRange(0, n), j) { assert On(b, j) == On(BitRange(0, n), j); }
      SameBits(b, BitRange(0, n), 8);
    }
  }

  lemma {:induction false} AllOnes()
    ensures BitRange(0, 8) == 255
  {
    OnesBound(8);
    hide Bit, BitRange, Pow2;
    forall j: nat ensures Bit(BitRange(0, 8), j) <==> Bit(255, j) {
      BitRangeBits(0, 8, j);
      BitOnes(8, j);
    }
    SameBits(BitRange(0, 8), 255, 8);
  }

  /** Byte i of a mask, compared with n ones. */
  lemma {:induction false} ByteFull(mask: seq<byte>, i: nat, n: nat)
    requires i < |mask| && n <= 8 && forall k: nat :: 8 * i + n <= k < 8 * i + 8 ==> !HasBit(mask, k)
    ensures mask[i] == BitRange(0, n) <==> forall k: nat :: 8 * i <= k < 8 * i + n ==> HasBit(mask, k)
  {
    hide BitRange, On;
    forall j: nat | j < 8 ensures On(mask[i], j) <==> HasBit(mask, 8 * i + j) {
      assert (8 * i + j) / 8 == i && (8 * i + j) % 8 == j;
    }
    FirstBits(mask[i], n);
    if forall j: nat :: j < n ==> On(mask[i], j) {
      forall k: nat | 8 * i <= k < 8 * i + n ensures HasBit(mask, k) { assert On(mask[i], k - 8 * i); }
    } else {
      var j: nat :| j < n && !On(mask[i], j);
      assert !HasBit(mask, 8 * i + j);
    }
  }

  class HmFragment {
    const kind: byte
    const seq_: nat
    const msgLen: nat
    /** Header and body. */
    const data: array<byte>
    /** Null once the message is complete. */
    var reassembly: array?<byte>
    ghost const epoch: nat
    ghost const Repr: set<object>

    /** The mask, while the message is incomplete. */
    ghost function Mask(): Option<seq<byte>>
      reads this, reassembly
    {
      if reassembly == null then None else Some(reassembly[..])
    }

    ghost predicate Valid()
      reads this, Repr
    {
      && this in Repr && data in Repr && data.Length == HM_HEADER + msgLen
      && data[..HM_HEADER] == HeaderBytes(kind, msgLen, seq_, 0, msgLen)
      && (reassembly != null ==>
            reassembly in Repr && reassembly != data && reassembly.Length == (msgLen + 7) / 8 && MaskOk(reassembly[..], msgLen))
    }

    ghost function Model(): Assembly
      requires Valid()
      reads this, Repr
    {
      Assembly(kind, seq_, epoch, Contents(Mask(), data[HM_HEADER..]))
    }

    constructor (kind: byte, seq_: nat, msgLen: nat, ghost epoch: nat)
      ensures Valid() && fresh(Repr)
      ensures Model() == Assembly(kind, seq_, epoch, Nothing(msgLen))
      ensures this.kind == kind && this.seq_ == seq_ && this.msgLen == msgLen && this.epoch == epoch
    {
      this.kind, this.seq_, this.msgLen, this.epoch := kind, seq_, msgLen, epoch;
      var header := HeaderBytes(kind, msgLen, seq_, 0, msgLen);
      var d := new byte[HM_HEADER + msgLen](i => if 0 <= i < HM_HEADER then header[i] else 0);
      data := d;
      reassembly := null;
      ghost var arrays: set<object> := {d};
      if msgLen > 0 {
        var mask := new byte[(msgLen + 7) / 8](_ => 0);
        reassembly := mask;
        arrays := arrays + {mask};
      }
      Repr := {this} + arrays;
      new;
      assert data[..HM_HEADER] == header;
      if reassembly != null { EmptyMask(reassembly[..], msgLen, data[HM_HEADER..]); }
    }

    /** The mask is gone exactly when every byte is there; the buffer then is the whole message. */
    lemma {:induction false} CompleteByMask()
      requires Valid()
      ensures reassembly == null <==> Complete(Model())
      ensures reassembly == null ==> data[HM_HEADER..] == Body(Model()) && data[..] == RawBytes(Model())
    {
      var got := Model().got;
      if reassembly == null {
        assert forall k :: 0 <= k < |got| ==> got[k] == Some(data[HM_HEADER..][k]);
        assert data[..] == data[..HM_HEADER] + data[HM_HEADER..];
      } else {
        var k: nat :| k < msgLen && !HasBit(reassembly[..], k);
        NotHas(reassembly[..], k);
        assert got[k] == None;
      }
    }

    /** Sets the bits for start to end. */
    method SetBits(start: nat, end: nat)
      requires reassembly != null && reassembly.Length == (msgLen + 7) / 8 && start < end <= msgLen
      modifies reassembly
      ensures Marked(old(reassembly[..]), reassembly[..], start, end)
    {
      ghost var was := reassembly[..];
      var first, last := start / 8, end / 8;
      hide Marked, Or, BitRange;
      if first == last {
        OrByte(was, first, start % 8, end % 8);
        reassembly[first] := Or(reassembly[first], BitRange(start % 8, end % 8));
        assert reassembly[..] == was[first := Or(was[first], BitRange(start % 8, end % 8))];
        return;
      }
      OrByte(was, first, start % 8, 8);
      reassembly[first] := Or(reassembly[first], BitRange(start % 8, 8));
      assert reassembly[..] == was[first := Or(was[first], BitRange(start % 8, 8))];
      for i := first + 1 to last
        invariant reassembly.Length == |was| && Marked(was, reassembly[..], start, 8 * i)
      {
        ghost var now := reassembly[..];
        FullByte(now, i);
        reassembly[i] := 0xff;
        assert reassembly[..] == now[i := 255];
        MarkedTwice(was, now, reassembly[..], start, 8 * i, 8 * i + 8);
      }
      if end % 8 != 0 {
        ghost var now := reassembly[..];
        OrByte(now, last, 0, end % 8);
        reassembly[last] := Or(reassembly[last], BitRange(0, end % 8));
        assert reassembly[..] == now[last := Or(now[last], BitRange(0, end % 8))];
        MarkedTwice(was, now, reassembly[..], start, 8 * last, end);
      }
    }

    /** The byte-by-byte test for completeness. */
    method AllReceived() returns (all: bool)
      requires reassembly != null && reassembly.Length == (msgLen + 7) / 8
      requires forall k: nat :: msgLen <= k < 8 * reassembly.Length ==> !HasBit(reassembly[..], k)
      ensures all <==> forall k: nat :: k < msgLen ==> HasBit(reassembly[..], k)
    {
      AllOnes();
      hide BitRange, HasBit;
      ghost var mask := reassembly[..];
      for i := 0 to msgLen / 8
        invariant forall k: nat :: k < 8 * i ==> HasBit(mask, k)
      {
        ByteFull(mask, i, 8);
        assert mask[i] == reassembly[i];
        if reassembly[i] != 0xff {
          ghost var k: nat :| 8 * i <= k < 8 * i + 8 && !HasBit(mask, k);
          assert k < msgLen && reassembly[..] == mask;
          return false;
        }
      }
      if msgLen % 8 != 0 {
        ByteFull(mask, msgLen / 8, msgLen % 8);
        assert mask[msgLen / 8] == reassembly[msgLen / 8];
        if reassembly[msgLen / 8] != BitRange(0, msgLen % 8) {
          ghost var k: nat :| 8 * (msgLen / 8) <= k < msgLen && !HasBit(mask, k);
          assert reassembly[..] == mask;
          return false;
        }
      }
      assert reassembly[..] == mask;
      all := true;
    }

    /** Marks bytes start to end as received; the mask goes when nothing is missing any more. */
    method Mark(start: nat, end: nat)
      requires Valid() && reassembly != null && start <= end <= msgLen
      modifies this`reassembly, reassembly
      ensures Valid()
      ensures forall k: nat :: k < msgLen ==>
                (Has(Mask(), k) <==> HasBit(old(reassembly[..]), k) || start <= k < end)
      ensures reassembly == null <==>
              forall k: nat :: k < msgLen ==> HasBit(old(reassembly[..]), k) || start <= k < end
    {
      hide HasBit;
      ghost var was := reassembly[..];
      if start == end {
        ghost var k: nat :| k < msgLen && !HasBit(was, k);
        assert !(HasBit(was, k) || start <= k < end);
        return;
      }
      SetBits(start, end);
      ghost var now := reassembly[..];
      assert forall k: nat :: k < msgLen ==> (HasBit(now, k) <==> HasBit(was, k) || start <= k < end);
      var all := AllReceived();
      if all {
        reassembly := null;
      } else {
        ghost var k: nat :| k < msgLen && !HasBit(now, k);
        assert !(HasBit(was, k) || start <= k < end);
      }
    }

    /** A fragment of this message arrives. */
    method Take(off: nat, body: seq<byte>)
      requires Valid() && off + |body| <= msgLen
      modifies Repr
      ensures Valid() && Model() == Absorb(old(Model()), off, body)
    {
      ghost var before := Model();
      if reassembly == null { return; }
      ghost var mask, bytes, header := reassembly[..], data[HM_HEADER..], data[..HM_HEADER];
      forall i | 0 <= i < |body| { data[HM_HEADER + off + i] := body[i]; }
      assert data[..HM_HEADER] == header;
      assert reassembly[..] == mask;
      Mark(off, off + |body|);
      ContentsGrow(mask, bytes, Mask(), data[HM_HEADER..], before, off, body);
    }
  }

  /** No bit past the end, and some byte missing. */
  ghost predicate MaskOk(mask: seq<byte>, len: nat) {
    && len <= 8 * |mask|
    && (forall k: nat :: len <= k < 8 * |mask| ==> !HasBit(mask, k))
    && exists k: nat :: k < len && !HasBit(mask, k)
  }

  ghost predicate Has(mask: Option<seq<byte>>, k: nat)
    requires mask.Some? ==> k < 8 * |mask.value|
  {
    mask.None? || HasBit(mask.value, k)
  }

  /** The bytes received, by the mask. */
  ghost function Contents(mask: Option<seq<byte>>, bytes: seq<byte>): (c: seq<Option<byte>>)
    requires mask.Some? ==> |bytes| <= 8 * |mask.value|
    ensures |c| == |bytes|
    ensures forall k: nat :: k < |bytes| ==> c[k] == if Has(mask, k) then Some(bytes[k]) else None
  {
    seq(|bytes|, k requires 0 <= k < |bytes| => if Has(mask, k) then Some(bytes[k]) else None)
  }

  lemma {:induction false} EmptyMask(mask: seq<byte>, len: nat, bytes: seq<byte>)
    requires 0 < len == |bytes| <= 8 * |mask| && forall i :: 0 <= i < |mask| ==> mask[i] == 0
    ensures MaskOk(mask, len) && Contents(Some(mask), bytes) == Nothing(len)
  {
    forall k: nat | k < 8 * |mask| ensures !HasBit(mask, k) { BitZero(k % 8); }
    assert !HasBit(mask, 0);
  }

  lemma {:induction false} ContentsGrow(mask: seq<byte>, bytes: seq<byte>, mask': Option<seq<byte>>, bytes': seq<byte>,
                     a: Assembly, off: nat, b: seq<byte>)
    requires |bytes| == |bytes'| && off + |b| <= |bytes| && MaskOk(mask, |bytes|)
    requires mask'.Some? ==> |bytes| <= 8 * |mask'.value|
    requires a.got == Contents(Some(mask), bytes)
    requires forall k: nat :: k < |bytes| ==> (Has(mask', k) <==> HasBit(mask, k) || off <= k < off + |b|)
    requires forall k: nat :: k < |bytes| ==> bytes'[k] == if off <= k < off + |b| then b[k - off] else bytes[k]
    ensures Absorb(a, off, b) == a.(got := Contents(mask', bytes'))
  {
    hide HasBit, Has;
    var k: nat :| k < |bytes| && !HasBit(mask, k);
    assert !Has(Some(mask), k) by { NotHas(mask, k); }
    assert a.got[k] == None;
    forall k: nat | k < |bytes| ensures Has(Some(mask), k) <==> HasBit(mask, k) { NotHas(mask, k); }
  }

  lemma {:induction false} NotHas(mask: seq<byte>, k: nat)
    requires k < 8 * |mask|
    ensures Has(Some(mask), k) <==> HasBit(mask, k)
  {
  }
}
