/** The output stream: writes into a bounded buffer, or only counts. */
module OutputStream {
  import opened Bits
  import opened Descriptor
  import opened Encoder
  import Varint

  lemma {:induction false} NextGroup(before: seq<byte>, w: nat, all: seq<byte>)
    requires before + Varint.Encode(w) == all
    ensures |before| < |all|
    ensures if w < 128 then before + [w] == all else before + [w % 128 + 128] + Varint.Encode(w / 128) == all
  {
    if w >= 128 {
      assert before + ([w % 128 + 128] + Varint.Encode(w / 128)) == all;
    }
  }

  /** Fills a ten-byte buffer with the varint of a number above 127. */
  method FillVarint(buffer: array<byte>, v: nat) returns (n: nat)
    requires buffer.Length == 10 && 0x7F < v < TWO_64
    modifies buffer
    ensures n <= 10 && buffer[..n] == Varint.Encode(v)
  {
    var value := v;
    n := 0;
    Varint.RoundTrip64(v, []);
    ghost var all := Varint.Encode(v);
    assert buffer[..0] + all == all;
    hide Varint.Encode;
    while value != 0
      invariant n <= 10
      invariant value != 0 ==> buffer[..n] + Varint.Encode(value) == all
      invariant value == 0 ==> n >= 1 && buffer[n - 1] >= 128 && buffer[..n - 1] + [buffer[n - 1] - 128] == all
      decreases value
    {
      ghost var before := buffer[..n];
      NextGroup(before, value, all);
      buffer[n] := value % 128 + 128;
      value := value / 128;
      n := n + 1;
      assert buffer[..n - 1] == before;
      assert buffer[..n] == before + [buffer[n - 1]];
    }
    buffer[n - 1] := buffer[n - 1] - 128;
    assert buffer[..n] == buffer[..n - 1] + [buffer[n - 1]];
  }

  class OStream {
    /** Null for a sizing stream. */
    const buf: array?<byte>
    const maxSize: nat
    var pos: nat
    var bytesWritten: nat

    ghost predicate Valid()
      reads this
    {
      buf != null ==> bytesWritten <= maxSize && pos + (maxSize - bytesWritten) <= buf.Length
    }

    ghost function Frame(): set<object> { if buf == null then {this} else {this, buf} }

    /** Bytes that may still be written. */
    ghost function Room(): int
      reads this
    {
      maxSize - bytesWritten
    }

    ghost predicate Accepts(n: nat)
      reads this
    {
      buf == null || n <= Room()
    }

    /** The bytes written so far; nothing for a sizing stream. */
    ghost function Text(): seq<byte>
      requires Valid()
      reads this, Frame()
    {
      if buf == null then [] else buf[..pos]
    }

    /** Compared with a state that had count bytes written, ending at position start after text, the
        bytes e have been added. */
    ghost predicate Grown(text: seq<byte>, start: nat, count: nat, e: seq<byte>)
      reads this, Frame()
    {
      && Valid() && bytesWritten == count + |e|
      && (buf != null ==> pos == start + |e| && Text() == text + e)
    }

    /** The bytes e were written, or counted. */
    twostate predicate Appended(new e: seq<byte>)
      requires old(Valid())
      reads Frame()
    {
      Grown(old(Text()), old(pos), old(bytesWritten), e)
    }

    /** The outcome of an encoder: it succeeds exactly when there is something to write and it
        fits, and then has written exactly that. */
    twostate predicate Wrote(new e: Option<seq<byte>>, ok: bool)
      requires old(Valid())
      reads Frame()
    {
      && Valid() && ok == (e.Some? && old(Accepts(|e.value|)))
      && (ok ==> Appended(e.value))
    }

    /** After done, encoding e: it succeeds exactly when both fit together, and then both are there. */
    twostate lemma {:induction false} Continue(new text: seq<byte>, new start: nat, new count: nat, new done: seq<byte>,
                            new e: Option<seq<byte>>, new ok: bool)
      requires old(Grown(text, start, count, done)) && Wrote(e, ok)
      ensures Valid() && ok == (e.Some? && (buf == null || count + |done| + |e.value| <= maxSize))
      ensures ok ==> Grown(text, start, count, done + e.value)
    {
      if ok { GrowMore(text, done, e.value); }
    }

    constructor FromBuffer(dest: array<byte>)
      ensures Valid() && buf == dest && maxSize == dest.Length && pos == 0 && bytesWritten == 0
    {
      buf, maxSize, pos, bytesWritten := dest, dest.Length, 0, 0;
    }

    constructor Sizing()
      ensures Valid() && buf == null && bytesWritten == 0
    {
      buf, maxSize, pos, bytesWritten := null, 0, 0, 0;
    }

    /** A stream that continues another one for at most size bytes. */
    constructor Sub(parent: OStream, size: nat)
      requires parent.Valid() && parent.buf != null && size <= parent.Room()
      ensures Valid() && buf == parent.buf && maxSize == size && pos == parent.pos && bytesWritten == 0
    {
      buf, maxSize, pos, bytesWritten := parent.buf, size, parent.pos, 0;
    }

    /** Writes count bytes.  A sizing stream never looks at them. */
    method Write(data: seq<byte>, count: nat) returns (ok: bool)
      requires Valid() && (buf != null ==> |data| == count)
      modifies Frame()
      ensures Valid() && ok == old(Accepts(count))
      ensures ok && |data| == count ==> Appended(data)
      ensures ok ==> bytesWritten == old(bytesWritten) + count
      ensures !ok ==> unchanged(Frame())
    {
      if buf != null {
        if bytesWritten + count > maxSize { return false; }
        for i := 0 to count
          invariant pos == old(pos) && bytesWritten == old(bytesWritten)
          invariant buf[..pos + i] == old(buf[..pos]) + data[..i]
        {
          buf[pos + i] := data[i];
        }
        pos := pos + count;
      }
      bytesWritten := bytesWritten + count;
      ok := true;
    }

    method EncodeVarint(v: nat) returns (ok: bool)
      requires Valid() && v < TWO_64
      modifies Frame()
      ensures Wrote(Some(Varint.Encode(v)), ok)
    {
      if v <= 0x7F {
        ok := Write([v], 1);
        return;
      }
      var buffer := new byte[10];
      var n := FillVarint(buffer, v);
      ok := Write(buffer[..n], n);
    }

    method EncodeSvarint(n: int) returns (ok: bool)
      requires Valid() && -TWO_63 <= n && n < TWO_63
      modifies Frame()
      ensures Wrote(Some(Varint.Encode(ZigZag(n))), ok)
    {
      var doubled := ToUnsigned64(n) * 2 % TWO_64;
      var zigzagged := if n < 0 then TWO_64 - 1 - doubled else doubled;
      ok := EncodeVarint(zigzagged);
    }

    method EncodeFixed32(v: nat) returns (ok: bool)
      requires Valid() && v < TWO_32
      modifies Frame()
      ensures Wrote(Some(LittleEndian(v, 4)), ok)
    {
      var bytes := [v % 256, v / 0x100 % 256, v / 0x1_0000 % 256, v / 0x100_0000 % 256];
      FourBytes(v);
      ok := Write(bytes, 4);
    }

    method EncodeFixed64(v: nat) returns (ok: bool)
      requires Valid() && v < TWO_64
      modifies Frame()
      ensures Wrote(Some(LittleEndian(v, 8)), ok)
    {
      var bytes := [v % 256, v / 0x100 % 256, v / 0x1_0000 % 256, v / 0x100_0000 % 256,
                    v / 0x1_0000_0000 % 256, v / 0x100_0000_0000 % 256, v / 0x1_0000_0000_0000 % 256,
                    v / 0x100_0000_0000_0000 % 256];
      EightBytes(v);
      ok := Write(bytes, 8);
    }

    method EncodeTag(wt: nat, tag: nat) returns (ok: bool)
      requires Valid() && tag <= PB_SIZE_MAX && wt < 8
      modifies Frame()
      ensures Wrote(Some(Key(tag, wt)), ok)
    {
      ok := EncodeVarint(tag * 8 + wt);
    }

    method EncodeTagForField(f: Field) returns (ok: bool)
      requires Valid()
      modifies Frame()
      ensures Wrote(Some(Key(f.tag, FieldWireType(f.ltype))), ok)
    {
      ok := EncodeTag(FieldWireType(f.ltype), f.tag);
    }

    method EncodeString(b: seq<byte>) returns (ok: bool)
      requires Valid()
      modifies Frame()
      ensures Wrote(Some(Delimit(b)), ok)
    {
      ok := EncodeVarint(|b| % TWO_64);
      if ok {
        ok := Write(b, |b|);
        assert buf != null && ok ==> old(buf[..pos]) + Delimit(b) == old(buf[..pos]) + Varint.Encode(|b| % TWO_64) + b;
      }
    }
  }

  /** Growing by e after growing by done is growing by both. */
  lemma {:induction false} GrowMore(text: seq<byte>, done: seq<byte>, e: seq<byte>)
    ensures text + done + e == text + (done + e)
  {
  }

  lemma {:induction false} FourBytes(v: nat)
    ensures LittleEndian(v, 4) == [v % 256, v / 0x100 % 256, v / 0x1_0000 % 256, v / 0x100_0000 % 256]
  {
    var a, b, c := v / 0x100, v / 0x1_0000, v / 0x100_0000;
    assert a / 0x100 == b && b / 0x100 == c;
    assert LittleEndian(c, 1) == [c % 256] + LittleEndian(c / 256, 0) == [c % 256];
    assert LittleEndian(b, 2) == [b % 256, c % 256];
    assert LittleEndian(a, 3) == [a % 256, b % 256, c % 256];
  }

  lemma {:induction false} EightBytes(v: nat)
    ensures LittleEndian(v, 8) ==
            [v % 256, v / 0x100 % 256, v / 0x1_0000 % 256, v / 0x100_0000 % 256,
             v / 0x1_0000_0000 % 256, v / 0x100_0000_0000 % 256, v / 0x1_0000_0000_0000 % 256,
             v / 0x100_0000_0000_0000 % 256]
  {
    var a, b, c, w := v / 0x100, v / 0x1_0000, v / 0x100_0000, v / 0x1_0000_0000;
    FourBytes(w);
    FirstByte(c, 4);
    FirstByte(b, 5);
    FirstByte(a, 6);
    FirstByte(v, 7);
    hide LittleEndian;
    assert a / 256 == b && b / 256 == c && c / 256 == w;
    assert w / 0x100 == v / 0x100_0000_0000 && w / 0x1_0000 == v / 0x1_0000_0000_0000
           && w / 0x100_0000 == v / 0x100_0000_0000_0000;
  }

  lemma {:induction false} FirstByte(v: nat, k: nat)
    ensures LittleEndian(v, k + 1) == [v % 256] + LittleEndian(v / 256, k)
  {
  }
}
