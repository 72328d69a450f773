/** The DTLS handshake header: type, length, sequence number, fragment offset, fragment length. */
module HandshakeFormat {
  import opened Bits
  import opened NetworkOrder

  const HM_HEADER: nat := 12
  const TWO_24: nat := 0x100_0000
  const TWO_16: nat := 0x1_0000

  /** A piece of a message; msgLen is the length of the whole body. */
  datatype Fragment = Fragment(kind: byte, msgLen: nat, seq_: nat, off: nat, body: seq<byte>)

  function HeaderBytes(kind: byte, msgLen: nat, seq_: nat, off: nat, len: nat): (h: seq<byte>)
    ensures |h| == HM_HEADER
  {
    [kind] + BigEndian(msgLen, 3) + BigEndian(seq_, 2) + BigEndian(off, 3) + BigEndian(len, 3)
  }

  function FragmentBytes(f: Fragment): (s: seq<byte>)
    ensures |s| == HM_HEADER + |f.body|
  {
    HeaderBytes(f.kind, f.msgLen, f.seq_, f.off, |f.body|) + f.body
  }

  /** The fragment at the front of s. */
  function ParseFragment(s: seq<byte>): (r: Parsed<Fragment>)
    ensures r.Good? ==> r.len <= |s| && r.len == HM_HEADER + |r.value.body| && r.value.seq_ < TWO_16
  {
    if |s| < HM_HEADER then Bad
    else
      var len := FromBigEndian(s[9..12]);
      FromBigEndianBound(s[4..6]);
      if HM_HEADER + len > |s| then Bad
      else
        PowersOfTwo();
        Good(Fragment(s[0], FromBigEndian(s[1..4]), FromBigEndian(s[4..6]), FromBigEndian(s[6..9]),
                      s[HM_HEADER..HM_HEADER + len]),
             HM_HEADER + len)
  }

  lemma {:induction false} HeaderLayout(kind: byte, m: seq<byte>, q: seq<byte>, o: seq<byte>, l: seq<byte>, b: seq<byte>, rest: seq<byte>)
    requires |m| == |o| == |l| == 3 && |q| == 2
    ensures var s := [kind] + m + q + o + l + b + rest;
            && |s| == HM_HEADER + |b| + |rest| && s[0] == kind && s[1..4] == m && s[4..6] == q && s[6..9] == o
            && s[9..12] == l && s[HM_HEADER..HM_HEADER + |b|] == b
  {
  }

  lemma {:induction false} ThreeBytes(v: nat)
    ensures BigEndian(v, 3) == [v / 0x1_0000 % 256, v / 0x100 % 256, v % 256]
    ensures BigEndian(v, 2) == [v / 0x100 % 256, v % 256]
  {
    var a, b := v / 0x100, v / 0x1_0000;
    assert a / 0x100 == b;
    assert BigEndian(b, 1) == [] + [b % 256] && BigEndian(a, 1) == [] + [a % 256];
    assert BigEndian(a, 2) == [b % 256] + [a % 256];
  }

  /** The twelve bytes: type, length of the message, its number, where the fragment begins, and its length. */
  lemma {:induction false} HeaderLiteral(kind: byte, msgLen: nat, seq_: nat, off: nat, len: nat)
    requires msgLen < TWO_24 && seq_ < TWO_16 && off < TWO_24 && len < TWO_24
    ensures HeaderBytes(kind, msgLen, seq_, off, len) ==
            [kind, msgLen / 0x1_0000, msgLen / 0x100 % 256, msgLen % 256, seq_ / 0x100, seq_ % 256,
             off / 0x1_0000, off / 0x100 % 256, off % 256, len / 0x1_0000, len / 0x100 % 256, len % 256]
  {
    ThreeBytes(msgLen);
    ThreeBytes(seq_);
    ThreeBytes(off);
    ThreeBytes(len);
    hide BigEndian;
  }

  predicate Encodable(f: Fragment) {
    f.msgLen < TWO_24 && f.seq_ < TWO_16 && f.off < TWO_24 && |f.body| < TWO_24
  }

  /** Parsing finds the fragment that was written, whatever follows it. */
  lemma {:induction false} FragmentRoundTrip(f: Fragment, rest: seq<byte>)
    requires Encodable(f)
    ensures ParseFragment(FragmentBytes(f) + rest) == Good(f, HM_HEADER + |f.body|)
  {
    assert Pow2(16) == TWO_16 && Pow2(24) == TWO_24 by {
      hide Pow2;
      PowersOfTwo();
      Pow2Add(16, 8);
    }
    hide Pow2;
    BigEndianRoundTrip(f.msgLen, 3);
    BigEndianRoundTrip(f.seq_, 2);
    BigEndianRoundTrip(f.off, 3);
    BigEndianRoundTrip(|f.body|, 3);
    hide BigEndian, FromBigEndian;
    HeaderLayout(f.kind, BigEndian(f.msgLen, 3), BigEndian(f.seq_, 2), BigEndian(f.off, 3), BigEndian(|f.body|, 3),
                 f.body, rest);
  }
}
