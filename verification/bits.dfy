/** Machine words as naturals: powers of two, bits, and the bitwise operators. */
module Bits {
  type byte = x: int | 0 <= x < 256

  const TWO_31: int := 0x8000_0000
  const TWO_32: int := 0x1_0000_0000
  const TWO_63: int := 0x8000_0000_0000_0000
  const TWO_64: int := 0x1_0000_0000_0000_0000

  datatype Option<+T> = None | Some(value: T)

  /** The outcome of reading a value from the front of a byte string: malformed, or a value and
      the number of bytes it took. */
  datatype Parsed<+T> = Bad | Good(value: T, len: nat)

  function Pow2(n: nat): (p: nat)
    ensures p > 0
  {
    if n == 0 then 1 else 2 * Pow2(n - 1)
  }

  lemma {:induction false} Pow2Add(a: nat, b: nat)
    ensures Pow2(a + b) == Pow2(a) * Pow2(b)
  {
    if a == 0 {
    } else {
      Pow2Add(a - 1, b);
      assert Pow2(a + b) == 2 * (Pow2(a - 1) * Pow2(b));
    }
  }

  lemma {:induction false} Pow2Below(a: nat, b: nat)
    requires a < b
    ensures Pow2(a) < Pow2(b)
  {
    if a + 1 < b { Pow2Below(a, b - 1); }
  }

  lemma {:induction false} PowersOfTwo()
    ensures Pow2(0) == 1 && Pow2(1) == 2 && Pow2(2) == 4 && Pow2(3) == 8 && Pow2(4) == 16
    ensures Pow2(5) == 32 && Pow2(6) == 64 && Pow2(7) == 128 && Pow2(8) == 256 && Pow2(16) == 65536
  {
    assert Pow2(1) == 2 * Pow2(0);
    assert Pow2(2) == 2 * Pow2(1);
    hide Pow2;
    Pow2Add(2, 1);
    Pow2Add(2, 2);
    Pow2Add(4, 1);
    Pow2Add(4, 2);
    Pow2Add(4, 3);
    Pow2Add(4, 4);
    Pow2Add(8, 8);
  }

  /** Bitwise OR of two unsigned words. */
  function Or(a: nat, b: nat): nat
    decreases a + b
  {
    if a == 0 && b == 0 then 0
    else (if a % 2 == 1 || b % 2 == 1 then 1 else 0) + 2 * Or(a / 2, b / 2)
  }

  lemma {:induction false} OrZero(b: nat)
    ensures Or(0, b) == b
  {
    if b != 0 { OrZero(b / 2); }
  }

  /** OR-ing a word into bit positions that are still clear is addition. */
  lemma {:induction false} OrDisjoint(a: nat, c: nat, k: nat)
    requires a < Pow2(k)
    ensures Or(a, c * Pow2(k)) == a + c * Pow2(k)
  {
    if k == 0 {
      OrZero(c);
    } else if a == 0 {
      OrZero(c * Pow2(k));
    } else {
      var b := c * Pow2(k);
      var h := c * Pow2(k - 1);
      assert b == 2 * h;
      assert b / 2 == h && b % 2 == 0;
      OrDisjoint(a / 2, c, k - 1);
      assert a == 2 * (a / 2) + a % 2;
    }
  }

  /** Bit k of a word. */
  predicate Bit(w: nat, k: nat) { if k == 0 then w % 2 == 1 else Bit(w / 2, k - 1) }

  /** Bitwise AND of two unsigned words. */
  function And(a: nat, b: nat): nat
    decreases a + b
  {
    if a == 0 && b == 0 then 0
    else (if a % 2 == 1 && b % 2 == 1 then 1 else 0) + 2 * And(a / 2, b / 2)
  }

  lemma {:induction false} BitZero(k: nat)
    ensures !Bit(0, k)
  {
    if k > 0 { BitZero(k - 1); }
  }

  lemma {:induction false} OrHalf(a: nat, b: nat)
    ensures Or(a, b) / 2 == Or(a / 2, b / 2)
    ensures Or(a, b) % 2 == 1 <==> a % 2 == 1 || b % 2 == 1
  {
  }

  lemma {:induction false} BitOr(a: nat, b: nat, k: nat)
    ensures Bit(Or(a, b), k) <==> Bit(a, k) || Bit(b, k)
    decreases k
  {
    OrHalf(a, b);
    hide Or;
    if k > 0 { BitOr(a / 2, b / 2, k - 1); }
  }

  lemma {:induction false} AndHalf(a: nat, b: nat)
    ensures And(a, b) / 2 == And(a / 2, b / 2)
    ensures And(a, b) % 2 == 1 <==> a % 2 == 1 && b % 2 == 1
  {
  }

  lemma {:induction false} BitAnd(a: nat, b: nat, k: nat)
    ensures Bit(And(a, b), k) <==> Bit(a, k) && Bit(b, k)
    decreases k
  {
    AndHalf(a, b);
    hide And;
    if k > 0 { BitAnd(a / 2, b / 2, k - 1); }
  }

  lemma {:induction false} BitPow2(k: nat, j: nat)
    ensures Bit(Pow2(k), j) <==> j == k
    decreases j
  {
    if j == 0 {
    } else if k == 0 {
      BitZero(j - 1);
    } else {
      BitPow2(k - 1, j - 1);
    }
  }

  /** A left shift moves every bit up. */
  lemma {:induction false} BitShift(w: nat, k: nat, j: nat)
    ensures Bit(w * Pow2(k), j) <==> j >= k && Bit(w, j - k)
    decreases k
  {
    if k > 0 {
      var h := w * Pow2(k - 1);
      assert w * Pow2(k) == 2 * h;
      if j > 0 { BitShift(w, k - 1, j - 1); }
    }
  }

  /** Truncation to n bits drops the others. */
  lemma {:induction false} BitTruncate(w: nat, n: nat, j: nat)
    ensures Bit(w % Pow2(n), j) <==> j < n && Bit(w, j)
    decreases n
  {
    if n == 0 {
      BitZero(j);
    } else {
      var p := Pow2(n - 1);
      assert w % (2 * p) == 2 * (w / 2 % p) + w % 2 by { HalveMod(w, p); }
      if j > 0 { BitTruncate(w / 2, n - 1, j - 1); }
    }
  }

  lemma {:induction false} HalveMod(w: nat, p: nat)
    requires p > 0
    ensures w % (2 * p) == 2 * (w / 2 % p) + w % 2
  {
    var q, r := w / 2 / p, w / 2 % p;
    assert w / 2 == q * p + r;
    assert w == q * (2 * p) + (2 * r + w % 2);
    ModUnique(w, 2 * p, q, 2 * r + w % 2);
  }

  lemma {:induction false} Multiples(d: int, m: nat)
    requires d >= 1
    ensures d * m >= m
  {
    assert (d - 1) * m >= 0;
  }

  lemma {:induction false} Distribute(a: int, b: int, m: int)
    ensures (a - b) * m == a * m - b * m
  {
  }

  lemma {:induction false} ModUnique(w: nat, m: nat, q: nat, r: nat)
    requires r < m && w == q * m + r
    ensures w % m == r
  {
    var q': int := w / m;
    assert w == q' * m + w % m;
    Distribute(q, q', m);
    Distribute(q', q, m);
    if q > q' {
      Multiples(q - q', m);
    } else if q' > q {
      Multiples(q' - q, m);
    }
  }

  lemma {:induction false} DivideUnique(w: nat, m: nat, q: nat, r: nat)
    requires r < m && w == q * m + r
    ensures w / m == q
  {
    ModUnique(w, m, q, r);
    var d := w / m;
    assert d * m == q * m;
    Distribute(q, d, m);
    Distribute(d, q, m);
    if q > d { Multiples(q - d, m); } else if d > q { Multiples(d - q, m); }
  }

  /** Dividing twice is dividing by the product. */
  lemma {:induction false} DivideTwice(v: nat, a: nat, b: nat)
    requires a > 0 && b > 0
    ensures a * b > 0 && v / a / b == v / (a * b)
  {
    Remainder(v, a);
    Remainder(v / a, b);
    QuotientOf(v, a, b, v / a, v % a, v / a / b, v / a % b);
  }

  lemma {:induction false} Remainder(v: nat, a: nat)
    requires a > 0
    ensures v == v / a * a + v % a && 0 <= v % a < a && v / a >= 0
  {
  }

  lemma {:induction false} QuotientOf(v: nat, a: nat, b: nat, q: nat, r: nat, t: nat, u: nat)
    requires v == q * a + r && r < a && q == t * b + u && u < b
    ensures a * b > 0 && v / (a * b) == t
  {
    Regroup(a, b, t, u, r);
    RestBelow(a, b, r, u);
    DivideUnique(v, a * b, t, a * u + r);
  }

  lemma {:induction false} Regroup(a: nat, b: nat, t: nat, u: nat, r: nat)
    ensures (t * b + u) * a + r == t * (a * b) + (a * u + r)
  {
    assert (t * b + u) * a == t * b * a + u * a;
    assert t * b * a == t * (a * b);
  }

  lemma {:induction false} RestBelow(a: nat, b: nat, r: nat, u: nat)
    requires r < a && u < b
    ensures 0 <= a * u + r < a * b
  {
    assert a * u <= a * (b - 1);
    assert a * (b - 1) == a * b - a;
  }

  /** The word of n ones. */
  lemma {:induction false} BitOnes(n: nat, j: nat)
    ensures Bit(Pow2(n) - 1, j) <==> j < n
    decreases n
  {
    if n == 0 {
      BitZero(j);
    } else {
      assert (Pow2(n) - 1) / 2 == Pow2(n - 1) - 1;
      if j > 0 { BitOnes(n - 1, j - 1); }
    }
  }

  /** The complement within n bits. */
  lemma {:induction false} BitNot(w: nat, n: nat, j: nat)
    requires w < Pow2(n) && j < n
    ensures Bit(Pow2(n) - 1 - w, j) <==> !Bit(w, j)
    decreases n
  {
    assert (Pow2(n) - 1 - w) / 2 == Pow2(n - 1) - 1 - w / 2;
    if j > 0 { BitNot(w / 2, n - 1, j - 1); }
  }

  /** Words with the same bits are the same. */
  lemma {:induction false} SameBits(a: nat, b: nat, n: nat)
    requires a < Pow2(n) && b < Pow2(n)
    requires forall j :: 0 <= j < n ==> Bit(a, j) == Bit(b, j)
    ensures a == b
    decreases n
  {
    if n > 0 {
      assert Bit(a, 0) == Bit(b, 0);
      forall j | 0 <= j < n - 1
        ensures Bit(a / 2, j) == Bit(b / 2, j)
      {
        assert Bit(a, j + 1) == Bit(b, j + 1);
      }
      SameBits(a / 2, b / 2, n - 1);
    }
  }

  lemma {:induction false} OrBound(a: nat, b: nat, n: nat)
    requires a < Pow2(n) && b < Pow2(n)
    ensures Or(a, b) < Pow2(n)
    decreases n
  {
    if n > 0 { OrBound(a / 2, b / 2, n - 1); }
  }
}
