/** The DTLS anti-replay window: a 64-bit map of the record numbers just below the largest one. */
module ReplayWindow {
  import opened Bits
  import opened NetworkOrder
  import Varint

  const WINDOW: nat := 64

  /** m is the largest recorded number, or 0 when there is none. */
  ghost predicate IsMax(recorded: set<nat>, m: nat) {
    (forall n :: n in recorded ==> n <= m) && (m in recorded || (recorded == {} && m == 0))
  }

  /** What the window stands for: a number is refused when it was recorded, or is too old to tell. */
  ghost predicate Refused(recorded: set<nat>, n: nat) {
    n in recorded || exists m :: m in recorded && n + WINDOW <= m
  }

  lemma {:induction false} RefusedByMax(recorded: set<nat>, m: nat, n: nat)
    requires IsMax(recorded, m)
    ensures Refused(recorded, n) <==> n in recorded || n + WINDOW <= m
  {
    if n + WINDOW <= m { assert m in recorded; }
  }

  /** The big-endian word in eight bytes, shifted together byte by byte. */
  method ToU64(s: seq<byte>) returns (ret: nat)
    requires |s| == 8
    ensures ret == FromBigEndian(s) < TWO_64
  {
    Varint.Pow2_64();
    hide Pow2, Or;
    ret := 0;
    for i := 0 to 8
      invariant ret == FromBigEndian(s[..i]) < Pow2(8 * i)
    {
      ShiftIn(ret, s[i], i);
      ret := Or(ret * 256 % TWO_64, s[i]);
      assert s[..i + 1][..i] == s[..i];
    }
    assert s[..8] == s;
  }

  lemma {:induction false} OrCommutes(a: nat, b: nat)
    ensures Or(a, b) == Or(b, a)
    decreases a + b
  {
    if a != 0 || b != 0 { OrCommutes(a / 2, b / 2); }
  }

  lemma {:induction false} ShiftIn(w: nat, b: byte, i: nat)
    requires i < 8 && w < Pow2(8 * i)
    ensures Or(w * 256 % TWO_64, b) == 256 * w + b < Pow2(8 * (i + 1))
  {
    Pow2Add(8, 8 * i);
    Pow2Add(8 * (i + 1), 8 * (7 - i));
    Varint.Pow2_64();
    PowersOfTwo();
    ShiftFits(w, Pow2(8 * i), Pow2(8 * (7 - i)));
    OrCommutes(w * 256, b);
    OrDisjoint(b, w, 8);
  }

  lemma {:induction false} ShiftFits(w: nat, p: nat, q: nat)
    requires w < p && q >= 1 && 256 * p * q == TWO_64
    ensures w * 256 < TWO_64 && w * 256 % TWO_64 == w * 256
  {
    assert 256 * p <= 256 * p * q by { Multiples(q, 256 * p); }
  }

  class Window {
    var map_: nat
    var maxSeq: nat
    /** Every number recorded since the window was last zeroed. */
    ghost var recorded: set<nat>

    ghost predicate Valid()
      reads this
    {
      && map_ < TWO_64 && maxSeq < TWO_64 && IsMax(recorded, maxSeq)
      && forall i: nat :: i < WINDOW ==> (Bit(map_, i) <==> i <= maxSeq && maxSeq - i in recorded)
    }

    constructor ()
      ensures Valid() && recorded == {}
    {
      map_, maxSeq, recorded := 0, 0, {};
      new;
      forall i: nat | i < WINDOW ensures !Bit(map_, i) { BitZero(i); }
    }

    method Reset()
      modifies this
      ensures Valid() && recorded == {}
    {
      map_, maxSeq, recorded := 0, 0, {};
      forall i: nat | i < WINDOW ensures !Bit(map_, i) { BitZero(i); }
    }

    method ShouldDiscard(n: nat) returns (discard: bool)
      requires Valid() && n < TWO_64
      ensures discard <==> Refused(recorded, n)
    {
      RefusedByMax(recorded, maxSeq, n);
      if n > maxSeq { return false; }
      var idx := maxSeq - n;
      if idx >= WINDOW { return true; }
      BitTest(map_, idx);
      discard := And(map_, Pow2(idx)) != 0;
    }

    method Record(n: nat)
      requires Valid() && n < TWO_64
      modifies this
      ensures Valid() && recorded == old(recorded) + {n}
    {
      Varint.Pow2_64();
      hide Pow2, Or, Bit;
      if n > maxSeq {
        var shift := n - maxSeq;
        ghost var w := map_;
        if shift >= WINDOW {
          map_ := 0;
          forall i: nat | i < WINDOW ensures !Bit(map_, i) { BitZero(i); }
        } else {
          map_ := map_ * Pow2(shift) % TWO_64;
          forall i: nat | i < WINDOW
            ensures Bit(map_, i) <==> shift <= i && Bit(w, i - shift)
          {
            BitTruncate(w * Pow2(shift), 64, i);
            BitShift(w, shift, i);
          }
        }
        maxSeq := n;
      }
      var idx := maxSeq - n;
      assert forall i: nat :: i < WINDOW ==> (Bit(map_, i) <==> i <= maxSeq && maxSeq - i in recorded);
      recorded := recorded + {n};
      if idx < WINDOW {
        ghost var w := map_;
        map_ := Or(map_, Pow2(idx));
        forall i: nat | i < WINDOW
          ensures Bit(map_, i) <==> Bit(w, i) || i == idx
        {
          BitOr(w, Pow2(idx), i);
          BitPow2(idx, i);
        }
        Pow2Below(idx, 64);
        OrBound(w, Pow2(idx), 64);
      }
    }
  }

  /** Testing one bit with a mask. */
  lemma {:induction false} BitTest(w: nat, k: nat)
    ensures And(w, Pow2(k)) != 0 <==> Bit(w, k)
  {
    forall j: nat
      ensures Bit(And(w, Pow2(k)), j) <==> Bit(w, k) && j == k
    {
      BitAnd(w, Pow2(k), j);
      BitPow2(k, j);
    }
    BitZero(k);
    if !Bit(w, k) { NoBits(And(w, Pow2(k))); }
  }

  lemma {:induction false} NoBits(w: nat)
    requires forall j: nat :: !Bit(w, j)
    ensures w == 0
  {
    if w != 0 {
      assert !Bit(w, 0);
      forall j: nat
        ensures !Bit(w / 2, j)
      {
        assert !Bit(w, j + 1);
      }
      NoBits(w / 2);
    }
  }
}
