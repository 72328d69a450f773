/** Base 128 varints: the encoder's bytes, and both decoders, as functions on byte strings. */
module Varint {
  import opened Bits

  /** The bytes of v, seven bits a byte, least significant group first. */
  function Encode(v: nat): (s: seq<byte>)
    ensures |s| >= 1
  {
    if v < 128 then [v] else [v % 128 + 128] + Encode(v / 128)
  }

  /** Position just past the first byte whose continuation bit is clear. */
  function Extent(s: seq<byte>): Option<nat> {
    if s == [] then None
    else if s[0] < 128 then Some(1)
    else match Extent(s[1..]) case None => None case Some(n) => Some(n + 1)
  }

  /** The number denoted by the groups up to the first byte without a continuation bit. */
  function Denoted(s: seq<byte>): nat {
    if s == [] then 0
    else if s[0] < 128 then s[0]
    else s[0] - 128 + 128 * Denoted(s[1..])
  }

  /** The 64-bit decoder: at most ten bytes, bits above 63 dropped. */
  function Read64(s: seq<byte>): Parsed<nat> {
    match Extent(s)
    case None => Bad
    case Some(n) => if n <= 10 then Good(Denoted(s) % TWO_64, n) else Bad
  }

  /** The accumulator after OR-ing in the low seven bits of b, in 64-bit arithmetic. */
  function Merge64(acc: nat, b: byte, bitpos: nat): nat {
    Or(acc, b % 128 * Pow2(bitpos) % TWO_64)
  }

  /** The loop of the 64-bit decoder. */
  function Read64Loop(s: seq<byte>, bitpos: nat, acc: nat): Parsed<nat> {
    if bitpos >= 64 || s == [] then Bad
    else if s[0] < 128 then Good(Merge64(acc, s[0], bitpos), 1)
    else
      match Read64Loop(s[1..], bitpos + 7, Merge64(acc, s[0], bitpos))
      case Bad => Bad
      case Good(v, n) => Good(v, n + 1)
  }

  /** The byte expected in positions above bit 31 of a sign-extended negative number. */
  function SignExtension(bitpos: nat): byte { if bitpos < 63 then 0xFF else 0x01 }

  /** The accumulator after OR-ing in the low seven bits of b, in 32-bit arithmetic. */
  function Merge(acc: nat, b: byte, bitpos: nat): nat {
    if bitpos >= 32 then acc else Or(acc, b % 128 * Pow2(bitpos) % TWO_32)
  }

  /** The multi-byte loop of the 32-bit decoder, with its 8-bit bit position. */
  function Read32Loop(s: seq<byte>, bitpos: nat, acc: nat): Parsed<nat> {
    if s == [] then Bad
    else
      var b := s[0];
      if bitpos >= 32 && b % 128 != 0 && (acc < TWO_31 || b != SignExtension(bitpos)) then Bad
      else
        var acc' := Merge(acc, b, bitpos);
        var bitpos' := (bitpos + 7) % 256;
        if b >= 128 then
          match Read32Loop(s[1..], bitpos', acc')
          case Bad => Bad
          case Good(v, n) => Good(v, n + 1)
        else if bitpos' == 35 && b >= 16 then Bad
        else Good(acc', 1)
  }

  function Read32(s: seq<byte>): Parsed<nat> {
    if s == [] then Bad
    else if s[0] < 128 then Good(s[0], 1)
    else
      match Read32Loop(s[1..], 7, s[0] - 128)
      case Bad => Bad
      case Good(v, n) => Good(v, n + 1)
  }

  // ----- the encoder against the 64-bit decoder

  lemma {:induction false} EncodeLength(v: nat, n: nat)
    requires n >= 1 && v < Pow2(7 * n)
    ensures |Encode(v)| <= n
  {
    if v >= 128 {
      Pow2Add(7, 7 * (n - 1));
      PowersOfTwo();
      assert n > 1;
      EncodeLength(v / 128, n - 1);
    }
  }

  /** There are just as many bytes as the number needs. */
  lemma {:induction false} EncodeSize(v: nat)
    ensures v < Pow2(7 * |Encode(v)|) && (|Encode(v)| > 1 ==> v >= Pow2(7 * (|Encode(v)| - 1)))
    decreases v
  {
    Pow2Add(7, 0);
    PowersOfTwo();
    if v >= 128 {
      var n := |Encode(v)|;
      EncodeSize(v / 128);
      Pow2Add(7, 7 * (n - 1));
      if n > 2 { Pow2Add(7, 7 * (n - 2)); }
      hide Pow2;
    }
  }

  /** Byte i of the encoding holds bits 7i to 7i + 6, and its top bit says whether more bytes follow. */
  lemma {:induction false} EncodeGroups(v: nat, i: nat)
    requires i < |Encode(v)|
    ensures Encode(v)[i] == v / Pow2(7 * i) % 128 + if i + 1 < |Encode(v)| then 128 else 0
    decreases v
  {
    if i == 0 {
      assert v / Pow2(0) == v;
    } else {
      EncodeGroups(v / 128, i - 1);
      Pow2Add(7, 7 * (i - 1));
      PowersOfTwo();
      hide Pow2;
      DivideTwice(v, 128, Pow2(7 * (i - 1)));
    }
  }

  lemma {:induction false} DenotedEncode(v: nat, t: seq<byte>)
    ensures Extent(Encode(v) + t) == Some(|Encode(v)|)
    ensures Denoted(Encode(v) + t) == v
  {
    var s := Encode(v) + t;
    if v < 128 {
      assert s[0] == v;
    } else {
      DenotedEncode(v / 128, t);
      assert s[0] == v % 128 + 128;
      assert s[1..] == Encode(v / 128) + t;
    }
  }

  /** Every 64-bit value survives, whatever follows it in the stream. */
  lemma {:induction false} RoundTrip64(v: nat, t: seq<byte>)
    requires v < TWO_64
    ensures Read64(Encode(v) + t) == Good(v, |Encode(v)|)
    ensures 1 <= |Encode(v)| <= 10
  {
    DenotedEncode(v, t);
    Pow2_64();
    Pow2Add(64, 6);
    PowersOfTwo();
    EncodeLength(v, 10);
  }

  lemma {:induction false} Pow2_32()
    ensures Pow2(7) == 128 && Pow2(14) == 0x4000 && Pow2(21) == 0x20_0000 && Pow2(28) == 0x1000_0000
    ensures Pow2(32) == TWO_32
  {
    hide Pow2;
    PowersOfTwo();
    Pow2Add(7, 7);
    Pow2Add(14, 7);
    Pow2Add(14, 14);
    Pow2Add(28, 4);
  }

  lemma {:induction false} Pow2_64()
    ensures Pow2(64) == TWO_64
  {
    Pow2_32();
    Pow2Add(32, 32);
  }

  lemma {:induction false} Pow2_63()
    ensures Pow2(0) == 1
    ensures Pow2(35) == 0x8_0000_0000 && Pow2(42) == 0x400_0000_0000 && Pow2(49) == 0x2_0000_0000_0000
    ensures Pow2(56) == 0x100_0000_0000_0000 && Pow2(63) == TWO_63
  {
    Pow2_32();
    Pow2Add(28, 7);
    Pow2Add(35, 7);
    Pow2Add(42, 7);
    Pow2Add(49, 7);
    Pow2Add(56, 7);
  }

  lemma {:induction false} PowerTable64(k: nat)
    requires k <= 9
    ensures var p := Pow2(7 * k);
            if k <= 8 then 128 * p == Pow2(7 * (k + 1)) && 128 * p <= TWO_63 else p == TWO_63
  {
    hide Pow2;
    Pow2_32();
    Pow2_63();
  }

  lemma {:induction false} SmallMod64(a: nat)
    requires a < TWO_64
    ensures a % TWO_64 == a
  {
  }

  /** Below bit 63 the new group lands whole on clear bits. */
  lemma {:induction false} Merge64Low(acc: nat, b: byte, k: nat, p: nat)
    requires k <= 8 && p == Pow2(7 * k) && acc < p
    ensures Merge64(acc, b, 7 * k) == acc + b % 128 * p < 128 * p
  {
    var c: nat := b % 128;
    PowerTable64(k);
    GroupBound(c, Pow2(7 * k));
    SmallMod64(c * Pow2(7 * k));
    OrDisjoint(acc, c, 7 * k);
    hide Or, Pow2;
  }

  lemma {:induction false} TenthGroup(c: nat, acc: nat)
    requires acc < TWO_63
    ensures c * TWO_63 % TWO_64 == c % 2 * TWO_63
    ensures (acc + c * TWO_63) % TWO_64 == acc + c % 2 * TWO_63
  {
    var h := c / 2;
    assert c == c % 2 + 2 * h;
    assert c * TWO_63 == c % 2 * TWO_63 + h * TWO_64;
  }

  /** In the tenth byte only the lowest bit fits. */
  lemma {:induction false} Merge64Tenth(acc: nat, b: byte)
    requires acc < TWO_63
    ensures Merge64(acc, b, 63) == acc + b % 2 * TWO_63
    ensures (acc + b % 128 * TWO_63) % TWO_64 == acc + b % 2 * TWO_63
  {
    hide Or, Pow2;
    Pow2_63();
    LowBit(b);
    TenthGroup(b % 128, acc);
    OrDisjoint(acc, b % 2, 63);
  }

  lemma {:induction false} LowBit(b: byte)
    ensures b % 128 % 2 == b % 2
  {
  }

  /** The number v at weight p on top of what is there, in 64 bits. */
  function Weighted(acc: nat, v: nat, p: nat): nat { (acc + v * p) % TWO_64 }

  /** The tenth byte is the last one the loop looks at. */
  lemma {:induction false} Read64TenthDenotes(s: seq<byte>, acc: nat)
    requires acc < TWO_63
    ensures Read64Loop(s, 63, acc) ==
            if Extent(s) == Some(1) then Good(Weighted(acc, Denoted(s), TWO_63), 1) else Bad
  {
    hide Merge64;
    if s != [] {
      Merge64Tenth(acc, s[0]);
      if s[0] >= 128 && Extent(s[1..]).Some? { ExtentBound(s[1..]); }
    }
  }

  /** A group below bit 63, the rest of the number still to come. */
  lemma {:induction false} WeightedGroup(acc: nat, b: byte, d: nat, p: nat)
    requires 128 * p <= TWO_63 && acc + b % 128 * p < 128 * p
    ensures b < 128 ==> Weighted(acc, b, p) == acc + b % 128 * p
    ensures b >= 128 ==> Weighted(acc, b - 128 + 128 * d, p) == Weighted(acc + b % 128 * p, d, 128 * p)
  {
    var c := b % 128;
    if b < 128 {
      SmallMod64(acc + c * p);
    } else {
      assert b - 128 + 128 * d == c + 128 * d;
      Regroup(c, d, p);
    }
  }

  /** The loop computes the denoted number modulo 2^64, and gives up after ten bytes. */
  lemma {:induction false} Read64LoopDenotes(s: seq<byte>, k: nat, acc: nat, p: nat)
    requires k <= 9 && p == Pow2(7 * k) && acc < p
    ensures Read64Loop(s, 7 * k, acc) ==
            if Extent(s).Some? && k + Extent(s).value <= 10 then Good(Weighted(acc, Denoted(s), p), Extent(s).value)
            else Bad
  {
    hide Merge64, Or, Pow2, Weighted;
    if s == [] { return; }
    PowerTable64(k);
    if k == 9 {
      Read64TenthDenotes(s, acc);
      if Extent(s).Some? { ExtentBound(s); }
      return;
    }
    var t, next, q := s[1..], Merge64(acc, s[0], 7 * k), 128 * p;
    Merge64Low(acc, s[0], k, p);
    WeightedGroup(acc, s[0], Denoted(t), p);
    if s[0] < 128 { return; }
    assert Denoted(s) == s[0] - 128 + 128 * Denoted(t);
    assert Read64Loop(s, 7 * k, acc) ==
           match Read64Loop(t, 7 * (k + 1), next) case Bad => Bad case Good(v, n) => Good(v, n + 1);
    assert Extent(s) == match Extent(t) case None => None case Some(n) => Some(n + 1);
    hide Read64Loop, Denoted, Extent;
    Read64LoopDenotes(t, k + 1, next, q);
  }

  /** The 64-bit loop is the declarative decoder. */
  lemma {:induction false} Read64LoopCorrect(s: seq<byte>)
    ensures Read64Loop(s, 0, 0) == Read64(s)
  {
    Read64LoopDenotes(s, 0, 0, 1);
  }

  // ----- the 32-bit decoder

  lemma {:induction false} Regroup(c: nat, d: nat, p: nat)
    ensures (c + 128 * d) * p == c * p + d * (128 * p)
  {
  }

  lemma {:induction false} DropMultiple(a: nat, b: nat, q: nat)
    requires a == b + TWO_32 * q
    ensures a % TWO_32 == b % TWO_32
  {
  }

  lemma {:induction false} TruncateGroup(c: nat)
    requires c < 128
    ensures c * 0x1000_0000 % TWO_32 == c % 16 * 0x1000_0000
  {
    assert c == c % 16 + 16 * (c / 16);
    DropMultiple(c * 0x1000_0000, c % 16 * 0x1000_0000, c / 16);
  }

  lemma {:induction false} GroupBound(c: nat, p: nat)
    requires c < 128
    ensures c * p <= 127 * p
  {
  }

  lemma {:induction false} PowerTable(k: nat)
    requires 1 <= k <= 4
    ensures var p := Pow2(7 * k);
            if k <= 3 then 128 * p == Pow2(7 * (k + 1)) && 128 * p <= 0x1000_0000 else p == 0x1000_0000
  {
    Pow2_32();
  }

  /** Below bit 28 the new group lands whole on clear bits. */
  lemma {:induction false} MergeLow(acc: nat, b: byte, c: nat, k: nat, p: nat)
    requires 1 <= k <= 3 && p == Pow2(7 * k) && acc < p && c == b % 128
    ensures Merge(acc, b, 7 * k) == acc + c * p < 128 * p
  {
    PowerTable(k);
    GroupBound(c, Pow2(7 * k));
    SmallMod(c * Pow2(7 * k));
    OrDisjoint(acc, c, 7 * k);
    hide Or, Pow2;
  }

  /** In the fifth byte only the low four bits fit. */
  lemma {:induction false} MergeFifth(acc: nat, b: byte)
    requires acc < 0x1000_0000
    ensures Merge(acc, b, 28) == acc + b % 16 * 0x1000_0000 < TWO_32
  {
    assert Pow2(28) == 0x1000_0000 by { Pow2_32(); }
    TruncateGroup(b % 128);
    assert b % 128 % 16 == b % 16;
    OrDisjoint(acc, b % 16, 28);
    hide Or, Pow2;
  }

  function OneByteLonger(r: Parsed<nat>): Parsed<nat> {
    match r case Bad => Bad case Good(v, n) => Good(v, n + 1)
  }

  lemma {:induction false} Read32LoopFirst(s: seq<byte>, bitpos: nat, acc: nat)
    requires s != [] && bitpos < 28
    ensures Read32Loop(s, bitpos, acc) ==
            if s[0] < 128 then Good(Merge(acc, s[0], bitpos), 1)
            else OneByteLonger(Read32Loop(s[1..], bitpos + 7, Merge(acc, s[0], bitpos)))
  {
    hide Merge;
  }

  lemma {:induction false} ContinuedGroup(c: nat)
    requires c < 128
    ensures c % 128 == c && (c + 128) % 128 == c && (c + 128) % 16 == c % 16
  {
  }

  /** The last group below bit 28. */
  lemma {:induction false} Read32LoopLastGroup(v: nat, k: nat, acc: nat, p: nat, t: seq<byte>)
    requires 1 <= k <= 3 && p == Pow2(7 * k) && acc < p && v < 128
    ensures Read32Loop(Encode(v) + t, 7 * k, acc) == Good(acc + v * p, 1)
  {
    hide Merge, Pow2, Or, Read32Loop;
    Read32LoopFirst(Encode(v) + t, 7 * k, acc);
    ContinuedGroup(v);
    MergeLow(acc, v, v, k, p);
  }

  /** Any other group below bit 28. */
  lemma {:induction false} Read32LoopGroup(v: nat, k: nat, acc: nat, p: nat, t: seq<byte>)
    requires 1 <= k <= 3 && p == Pow2(7 * k) && acc < p && v >= 128
    ensures Read32Loop(Encode(v) + t, 7 * k, acc) ==
            OneByteLonger(Read32Loop(Encode(v / 128) + t, 7 * (k + 1), acc + v % 128 * p))
    ensures 128 * p == Pow2(7 * (k + 1)) && acc + v % 128 * p < 128 * p && |Encode(v)| == |Encode(v / 128)| + 1
  {
    hide Merge, Pow2, Or, Read32Loop;
    var s := Encode(v) + t;
    assert s[0] == v % 128 + 128 && s[1..] == Encode(v / 128) + t;
    Read32LoopFirst(s, 7 * k, acc);
    PowerTable(k);
    ContinuedGroup(v % 128);
    MergeLow(acc, s[0], v % 128, k, p);
  }

  lemma {:induction false} Read32LoopTop(v: nat, acc: nat, t: seq<byte>)
    requires acc < 0x1000_0000 && v < 16
    ensures Read32Loop(Encode(v) + t, 28, acc) == Good(acc + v * 0x1000_0000, 1)
  {
    hide Merge;
    MergeFifth(acc, v);
  }

  /** The loop on the canonical bytes of v, when v still fits above the bits already read; full is the
      whole number. */
  lemma {:induction false} Read32LoopEncode(v: nat, k: nat, acc: nat, p: nat, full: nat, t: seq<byte>)
    requires 1 <= k <= 4 && p == Pow2(7 * k) && acc < p && full == acc + v * p
    requires v < (if k == 1 then 0x200_0000 else if k == 2 then 0x4_0000 else if k == 3 then 2048 else 16)
    ensures Read32Loop(Encode(v) + t, 7 * k, acc) == Good(full, |Encode(v)|)
  {
    assert v < 128 ==> |Encode(v)| == 1;
    hide Merge, Pow2, Or, Read32Loop, Encode;
    PowerTable(k);
    if k == 4 {
      Read32LoopTop(v, acc, t);
    } else if v < 128 {
      Read32LoopLastGroup(v, k, acc, p, t);
    } else {
      Read32LoopGroup(v, k, acc, p, t);
      Carry(v, acc, p);
      Read32LoopEncode(v / 128, k + 1, acc + v % 128 * p, 128 * p, full, t);
    }
  }

  /** Every 32-bit value survives, whatever follows it in the stream. */
  lemma {:induction false} RoundTrip32(v: nat, t: seq<byte>)
    requires v < TWO_32
    ensures Read32(Encode(v) + t) == Good(v, |Encode(v)|)
  {
    hide Merge, Or;
    var s := Encode(v) + t;
    if v >= 128 {
      PowersOfTwo();
      assert s[1..] == Encode(v / 128) + t;
      assert s[0] == v % 128 + 128;
      Read32LoopEncode(v / 128, 1, v % 128, 128, v, t);
    }
  }

  /** Above bit 31 the loop only checks: the accumulator no longer moves. */
  lemma {:induction false} Read32LoopHigh(s: seq<byte>, k: nat, acc: nat)
    requires 5 <= k && Read32Loop(s, 7 * k, acc).Good?
    requires k + Read32Loop(s, 7 * k, acc).len <= 10
    ensures Read32Loop(s, 7 * k, acc).value == acc
  {
    if s[0] >= 128 { Read32LoopHigh(s[1..], k + 1, acc); }
  }

  /** The number v at weight p on top of what is there, in 32 bits. */
  function Weighted32(acc: nat, v: nat, p: nat): nat { (acc + v * p) % TWO_32 }

  lemma {:induction false} WeightedGroup32(acc: nat, b: byte, d: nat, p: nat)
    requires 128 * p <= 0x1000_0000 && acc + b % 128 * p < 128 * p
    ensures b < 128 ==> Weighted32(acc, b, p) == acc + b % 128 * p
    ensures b >= 128 ==> Weighted32(acc, b - 128 + 128 * d, p) == Weighted32(acc + b % 128 * p, d, 128 * p)
  {
    var c := b % 128;
    if b < 128 {
      SmallMod(acc + c * p);
    } else {
      assert b - 128 + 128 * d == c + 128 * d;
      Regroup(c, d, p);
    }
  }

  lemma {:induction false} Read32FifthDenotes(s: seq<byte>, acc: nat)
    requires acc < 0x1000_0000 && Read32Loop(s, 28, acc).Good? && Read32Loop(s, 28, acc).len <= 6
    ensures Read32Loop(s, 28, acc).value == Weighted32(acc, Denoted(s), 0x1000_0000)
  {
    hide Merge, Or, Weighted32;
    var b := s[0];
    MergeFifth(acc, b);
    if b >= 128 { Read32LoopHigh(s[1..], 5, Merge(acc, b, 28)); }
    FifthWeighted(acc, b, if b >= 128 then Denoted(s[1..]) else 0);
  }

  lemma {:induction false} FifthWeighted(acc: nat, b: byte, d: nat)
    requires acc < 0x1000_0000 && (b < 128 ==> d == 0)
    ensures Weighted32(acc, if b < 128 then b else b - 128 + 128 * d, 0x1000_0000) == acc + b % 16 * 0x1000_0000
  {
    FifthGroup(acc, b, d);
  }

  /** While the encoding is at most ten bytes, whatever the loop accepts is the denoted number
      modulo 2^32. */
  lemma {:induction false} Read32LoopDenotes(s: seq<byte>, k: nat, acc: nat, p: nat)
    requires 1 <= k <= 4 && p == Pow2(7 * k) && acc < p
    requires Read32Loop(s, 7 * k, acc).Good? && k + Read32Loop(s, 7 * k, acc).len <= 10
    ensures Read32Loop(s, 7 * k, acc).value == Weighted32(acc, Denoted(s), p)
  {
    hide Merge, Pow2, Or, Weighted32;
    PowerTable(k);
    if k == 4 {
      Read32FifthDenotes(s, acc);
      return;
    }
    var t, next, q := s[1..], Merge(acc, s[0], 7 * k), 128 * p;
    MergeLow(acc, s[0], s[0] % 128, k, p);
    WeightedGroup32(acc, s[0], Denoted(t), p);
    if s[0] < 128 { return; }
    assert Denoted(s) == s[0] - 128 + 128 * Denoted(t);
    assert Read32Loop(s, 7 * k, acc) ==
           match Read32Loop(t, 7 * (k + 1), next) case Bad => Bad case Good(v, n) => Good(v, n + 1);
    hide Read32Loop, Denoted;
    Read32LoopDenotes(t, k + 1, next, q);
  }

  lemma {:induction false} SmallMod(a: nat)
    requires a < TWO_32
    ensures a % TWO_32 == a
  {
  }

  /** The bits of the fifth group above bit 31, and all later groups, vanish modulo 2^32. */
  lemma {:induction false} FifthGroup(acc: nat, b: byte, d: nat)
    requires acc < 0x1000_0000
    ensures (acc + (b % 128 + 128 * d) * 0x1000_0000) % TWO_32 == acc + b % 16 * 0x1000_0000
  {
    var c := b % 128;
    assert c == c % 16 + 16 * (c / 16) && c % 16 == b % 16;
    var r := acc + b % 16 * 0x1000_0000;
    DropMultiple(acc + (c + 128 * d) * 0x1000_0000, r, c / 16 + 8 * d);
    SmallMod(r);
  }

  /** Groups of a number from position k on, the last one at bit 63: each but that one all zeros or all
      ones, and that one 1. */
  predicate SignGroups(w: nat, k: nat)
    decreases 9 - k
  {
    if k >= 9 then w == 1
    else w >= 128 && (w % 128 == 0 || w % 128 == 127) && SignGroups(w / 128, k + 1)
  }

  /** Above bit 31 the loop accepts the sign groups of a negative number, and nothing else. */
  lemma {:induction false} Read32LoopSign(w: nat, k: nat, acc: nat, t: seq<byte>)
    requires 5 <= k <= 9 && w >= 1 && k + |Encode(w)| <= 10
    ensures Read32Loop(Encode(w) + t, 7 * k, acc).Good? <==> acc >= TWO_31 && SignGroups(w, k)
    decreases 9 - k
  {
    var s := Encode(w) + t;
    assert s[0] == if w < 128 then w else w % 128 + 128;
    if w >= 128 {
      assert s[1..] == Encode(w / 128) + t;
      Read32LoopSign(w / 128, k + 1, acc, t);
    }
  }

  /** What is left at position k does not fit below bit 32. */
  predicate Overflows(v: nat, k: nat) {
    v >= if k == 1 then 0x200_0000 else if k == 2 then 0x4_0000 else if k == 3 then 2048 else 16
  }

  /** Of what is left at position k, the groups from bit 35 on. */
  function HighGroups(v: nat, k: nat): nat {
    if k == 1 then v / 0x1000_0000 else if k == 2 then v / 0x20_0000 else if k == 3 then v / 0x4000 else v / 128
  }

  lemma {:induction false} NextHighGroups(v: nat, k: nat)
    requires 1 <= k <= 3 && Overflows(v, k)
    ensures v >= 128 && Overflows(v / 128, k + 1) && HighGroups(v / 128, k + 1) == HighGroups(v, k)
  {
  }

  /** The group that straddles bit 32. */
  lemma {:induction false} Read32LoopStraddle(v: nat, acc: nat, t: seq<byte>)
    requires acc < 0x1000_0000 && v >= 16 && 4 + |Encode(v)| <= 10
    ensures Read32Loop(Encode(v) + t, 28, acc).Good? <==>
            (acc + v * 0x1000_0000) % TWO_32 >= TWO_31 && v >= 128 && SignGroups(v / 128, 5)
  {
    hide Merge, Or, SignGroups;
    var s := Encode(v) + t;
    assert s[0] == if v < 128 then v else v % 128 + 128;
    MergeFifth(acc, s[0]);
    if v >= 128 {
      assert s[1..] == Encode(v / 128) + t;
      Read32LoopSign(v / 128, 5, Merge(acc, s[0], 28), t);
      FifthGroup(acc, s[0], v / 128);
    }
  }

  lemma {:induction false} Carry(v: nat, acc: nat, p: nat)
    ensures acc + v * p == acc + v % 128 * p + v / 128 * (128 * p)
    ensures v % 128 * p >= 0
  {
    Regroup(v % 128, v / 128, p);
  }

  /** The loop from the fifth group on. */
  lemma {:induction false} Read32LoopLast(v: nat, acc: nat, full: nat, t: seq<byte>)
    requires acc < 0x1000_0000 && full == acc + v * 0x1000_0000 && v >= 16 && 4 + |Encode(v)| <= 10
    ensures Read32Loop(Encode(v) + t, 28, acc).Good? <==> full % TWO_32 >= TWO_31 && SignGroups(v / 128, 5)
  {
    hide Read32Loop, Encode, SignGroups;
    Read32LoopStraddle(v, acc, t);
    if v < 128 { NoSignGroups(v / 128); }
  }

  /** The loop on the canonical bytes of a number that does not fit; full is the whole number. */
  lemma {:induction false} Read32LoopWide(v: nat, k: nat, acc: nat, p: nat, full: nat, t: seq<byte>)
    requires 1 <= k <= 4 && p == Pow2(7 * k) && acc < p && full == acc + v * p
    requires Overflows(v, k) && k + |Encode(v)| <= 10
    ensures Read32Loop(Encode(v) + t, 7 * k, acc).Good? <==>
            full % TWO_32 >= TWO_31 && SignGroups(HighGroups(v, k), 5)
    decreases 4 - k
  {
    hide Merge, Pow2, Or, Read32Loop, SignGroups;
    PowerTable(k);
    if k == 4 {
      Read32LoopLast(v, acc, full, t);
      return;
    }
    NextHighGroups(v, k);
    assert |Encode(v)| == |Encode(v / 128)| + 1;
    hide Overflows, HighGroups, Encode;
    Read32LoopGroup(v, k, acc, p, t);
    Carry(v, acc, p);
    Read32LoopWide(v / 128, k + 1, acc + v % 128 * p, 128 * p, full, t);
  }

  lemma {:induction false} NoSignGroups(w: nat)
    requires w == 0
    ensures !SignGroups(w, 5)
  {
  }

  /** Of the 64-bit numbers that do not fit 32 bits, the 32-bit decoder accepts, in their canonical
      encoding, exactly those that look like negative ones: bits 31 and 63 are set, and each group of
      seven bits from bit 35 to bit 62 is all zeros or all ones. */
  lemma {:induction false} Read32Exactly(v: nat, t: seq<byte>)
    requires TWO_32 <= v < TWO_64
    ensures Read32(Encode(v) + t).Good? <==> v % TWO_32 >= TWO_31 && SignGroups(v / 0x8_0000_0000, 5)
  {
    hide Merge, Or, SignGroups;
    RoundTrip64(v, t);
    var s := Encode(v) + t;
    PowersOfTwo();
    assert s[1..] == Encode(v / 128) + t && s[0] == v % 128 + 128;
    assert |Encode(v)| == |Encode(v / 128)| + 1;
    hide Pow2, Encode, Read32Loop;
    Read32LoopWide(v / 128, 1, v % 128, 128, v, t);
    assert HighGroups(v / 128, 1) == v / 0x8_0000_0000;
  }

  /** A negative 32-bit number, sign-extended to 64 bits, comes out as its low 32 bits. */
  lemma {:induction false} SignExtendedRoundTrip(n: int, t: seq<byte>)
    requires -TWO_31 <= n < 0
    ensures Read32(Encode(n + TWO_64) + t) == Good(n + TWO_32, |Encode(n + TWO_64)|)
  {
    var v := n + TWO_64;
    assert v % TWO_32 == n + TWO_32;
    assert v / 0x8_0000_0000 == 0x1FFF_FFFF;
    AllOnesGroups();
    Read32Exactly(v, t);
    RoundTrip64(v, t);
    hide Read32, Encode, SignGroups;
    var s := Encode(v) + t;
    Read32Extent(s);
    DecodersAgree(s);
  }

  lemma {:induction false} AllOnesGroups()
    ensures SignGroups(0x1FFF_FFFF, 5)
  {
    assert SignGroups(1, 9);
    assert SignGroups(0xFF, 8);
    assert SignGroups(0x7FFF, 7);
    assert SignGroups(0x3F_FFFF, 6);
  }

  lemma {:induction false} SparseGroups()
    ensures SignGroups(0x1000_0000, 5)
  {
    assert SignGroups(1, 9);
    assert SignGroups(0x80, 8);
    assert SignGroups(0x4000, 7);
    assert SignGroups(0x20_0000, 6);
  }

  /** Not every number that does not fit is refused: 2^63 + 2^31 is accepted. */
  lemma {:induction false} OversizedAccepted(t: seq<byte>)
    ensures Read32(Encode(TWO_63 + TWO_31) + t).Good?
  {
    hide Read32, Encode, SignGroups;
    SparseGroups();
    Read32Exactly(TWO_63 + TWO_31, t);
    assert (TWO_63 + TWO_31) / 0x8_0000_0000 == 0x1000_0000;
  }

  /** The two decoders agree modulo 2^32 on every encoding of at most ten bytes that the 32-bit
      decoder accepts. */
  lemma {:induction false} DecodersAgree(s: seq<byte>)
    requires Read32(s).Good? && Read32(s).len <= 10
    ensures Read64(s).Good? && Read64(s).len == Read32(s).len
    ensures Read32(s).value == Read64(s).value % TWO_32
  {
    hide Merge, Or;
    Read32Extent(s);
    var d := Denoted(s);
    if s[0] >= 128 {
      PowersOfTwo();
      Read32LoopDenotes(s[1..], 1, s[0] - 128, 128);
    } else {
      SmallMod(d);
    }
    DropMultiple(d, d % TWO_64, TWO_32 * (d / TWO_64));
  }

  lemma {:induction false} Read32LoopExtent(s: seq<byte>, bitpos: nat, acc: nat)
    requires Read32Loop(s, bitpos, acc).Good?
    ensures Extent(s) == Some(Read32Loop(s, bitpos, acc).len)
  {
    if s[0] >= 128 {
      var acc' := Merge(acc, s[0], bitpos);
      Read32LoopExtent(s[1..], (bitpos + 7) % 256, acc');
    }
  }

  lemma {:induction false} Read32Extent(s: seq<byte>)
    requires Read32(s).Good?
    ensures Extent(s) == Some(Read32(s).len)
  {
    if s[0] >= 128 { Read32LoopExtent(s[1..], 7, s[0] - 128); }
  }

  lemma {:induction false} Read32LoopBound(s: seq<byte>, bitpos: nat, acc: nat)
    requires acc < TWO_32 && Read32Loop(s, bitpos, acc).Good?
    ensures Read32Loop(s, bitpos, acc).value < TWO_32
  {
    Pow2_32();
    if bitpos < 32 { OrBound(acc, s[0] % 128 * Pow2(bitpos) % TWO_32, 32); }
    if s[0] >= 128 { Read32LoopBound(s[1..], (bitpos + 7) % 256, Merge(acc, s[0], bitpos)); }
  }

  /** The 32-bit decoder returns 32-bit values. */
  lemma {:induction false} Read32Bound(s: seq<byte>)
    requires Read32(s).Good?
    ensures Read32(s).value < TWO_32
  {
    if s[0] >= 128 { Read32LoopBound(s[1..], 7, s[0] - 128); }
  }

  // ----- reading depends only on the bytes consumed

  /** s and t start with the same n bytes. */
  ghost predicate Agree(s: seq<byte>, t: seq<byte>, n: nat) {
    n <= |s| && n <= |t| && s[..n] == t[..n]
  }

  lemma {:induction false} AgreeTail(s: seq<byte>, t: seq<byte>, n: nat)
    requires n >= 1 && Agree(s, t, n)
    ensures s[0] == t[0] && Agree(s[1..], t[1..], n - 1)
  {
    assert s[0] == s[..n][0] == t[..n][0] == t[0];
    assert s[1..][..n - 1] == s[..n][1..] == t[..n][1..] == t[1..][..n - 1];
  }

  lemma {:induction false} ExtentBound(s: seq<byte>)
    requires Extent(s).Some?
    ensures 1 <= Extent(s).value <= |s|
  {
    if s[0] >= 128 { ExtentBound(s[1..]); }
  }

  lemma {:induction false} ExtentLocal(s: seq<byte>, t: seq<byte>)
    requires Extent(s).Some? && Agree(s, t, Extent(s).value)
    ensures Extent(t) == Extent(s) && Denoted(t) == Denoted(s)
  {
    ExtentBound(s);
    AgreeTail(s, t, Extent(s).value);
    if s[0] >= 128 { ExtentLocal(s[1..], t[1..]); }
  }

  lemma {:induction false} Read32LoopLocal(s: seq<byte>, t: seq<byte>, bitpos: nat, acc: nat)
    requires Read32Loop(s, bitpos, acc).Good? && Agree(s, t, Read32Loop(s, bitpos, acc).len)
    ensures Read32Loop(t, bitpos, acc) == Read32Loop(s, bitpos, acc)
  {
    Read32LoopExtent(s, bitpos, acc);
    ExtentBound(s);
    AgreeTail(s, t, Read32Loop(s, bitpos, acc).len);
    if s[0] >= 128 {
      var acc' := Merge(acc, s[0], bitpos);
      Read32LoopLocal(s[1..], t[1..], (bitpos + 7) % 256, acc');
    }
  }

  lemma {:induction false} Read32Local(s: seq<byte>, t: seq<byte>)
    requires Read32(s).Good? && Agree(s, t, Read32(s).len)
    ensures Read32(t) == Read32(s)
  {
    Read32Extent(s);
    ExtentBound(s);
    AgreeTail(s, t, Read32(s).len);
    if s[0] >= 128 { Read32LoopLocal(s[1..], t[1..], 7, s[0] - 128); }
  }
}
