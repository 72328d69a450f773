/** Big-endian integers, as DTLS headers carry them. */
module NetworkOrder {
  import opened Bits

  function BigEndian(v: nat, k: nat): (s: seq<byte>)
    ensures |s| == k
  {
    if k == 0 then [] else BigEndian(v / 256, k - 1) + [v % 256]
  }

  function FromBigEndian(s: seq<byte>): nat {
    if s == [] then 0 else 256 * FromBigEndian(s[..|s| - 1]) + s[|s| - 1]
  }

  lemma {:induction false} BigEndianRoundTrip(v: nat, k: nat)
    requires v < Pow2(8 * k)
    ensures FromBigEndian(BigEndian(v, k)) == v
  {
    if k > 0 {
      Pow2Add(8, 8 * (k - 1));
      PowersOfTwo();
      BigEndianRoundTrip(v / 256, k - 1);
      assert BigEndian(v, k)[..k - 1] == BigEndian(v / 256, k - 1);
    }
  }

  lemma {:induction false} FromBigEndianBound(s: seq<byte>)
    ensures FromBigEndian(s) < Pow2(8 * |s|)
  {
    if s != [] {
      FromBigEndianBound(s[..|s| - 1]);
      Pow2Add(8, 8 * (|s| - 1));
      PowersOfTwo();
    }
  }

  /** The upper bytes count 256^|b| each. */
  lemma {:induction false} FromBigEndianSplit(a: seq<byte>, b: seq<byte>)
    ensures FromBigEndian(a + b) == FromBigEndian(a) * Pow2(8 * |b|) + FromBigEndian(b)
  {
    if b == [] {
      assert a + b == a;
    } else {
      var c := b[..|b| - 1];
      assert (a + b)[..|a + b| - 1] == a + c;
      FromBigEndianSplit(a, c);
      Pow2Add(8, 8 * |c|);
      PowersOfTwo();
      hide Pow2;
      OneByteMore(FromBigEndian(a), Pow2(8 * |c|), FromBigEndian(c), b[|b| - 1]);
    }
  }

  lemma {:induction false} OneByteMore(x: nat, p: nat, y: nat, last: byte)
    ensures 256 * (x * p + y) + last == x * (256 * p) + (256 * y + last)
  {
  }
}
