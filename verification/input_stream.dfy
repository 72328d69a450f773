/** The length-limited input stream over a memory buffer, and the readers of wire primitives. */
module InputStream {
  import opened Bits
  import opened Wire
  import Varint

  class IStream {
    const buf: array<byte>
    var pos: nat
    var bytesLeft: nat

    ghost predicate Valid()
      reads this
    {
      pos + bytesLeft <= buf.Length
    }

    /** The bytes still to be read. */
    ghost function Rest(): (s: seq<byte>)
      requires Valid()
      reads this, buf
      ensures |s| == bytesLeft
    {
      buf[pos..pos + bytesLeft]
    }

    /** The read position is inside the window that ends at limit. */
    ghost predicate Within(limit: nat)
      reads this
    {
      Valid() && pos + bytesLeft == limit
    }

    constructor FromBuffer(source: array<byte>, size: nat)
      requires size <= source.Length
      ensures Valid() && buf == source && pos == 0 && Rest() == source[..size]
    {
      buf, pos, bytesLeft := source, 0, size;
    }

    /** A copy of a stream limited to its next size bytes. */
    constructor Sub(parent: IStream, size: nat)
      requires parent.Valid() && size <= parent.bytesLeft
      ensures Valid() && buf == parent.buf && pos == parent.pos && bytesLeft == size
      ensures Rest() == parent.Rest()[..size]
    {
      buf, pos, bytesLeft := parent.buf, parent.pos, size;
    }

    /** Reads exactly count bytes, or nothing when fewer are left. */
    method Read(count: nat) returns (ok: bool, data: seq<byte>)
      requires Valid()
      modifies this
      ensures Within(old(pos + bytesLeft))
      ensures ok == (count <= old(bytesLeft))
      ensures ok ==> data == old(Rest())[..count] && Rest() == old(Rest())[count..] && pos == old(pos) + count
      ensures !ok ==> pos == old(pos)
    {
      data := [];
      if bytesLeft < count { return false, data; }
      for i := 0 to count
        invariant data == Rest()[..i]
        invariant pos == old(pos) && bytesLeft == old(bytesLeft)
      {
        data := data + [buf[pos + i]];
      }
      pos, bytesLeft := pos + count, bytesLeft - count;
      ok := true;
    }

    method ReadByte() returns (ok: bool, b: byte)
      requires Valid()
      modifies this
      ensures Within(old(pos + bytesLeft))
      ensures ok == (old(bytesLeft) > 0)
      ensures ok ==> b == old(Rest())[0] && Rest() == old(Rest())[1..] && pos == old(pos) + 1
      ensures !ok ==> pos == old(pos)
    {
      b := 0;
      if bytesLeft == 0 { return false, b; }
      b := buf[pos];
      pos, bytesLeft := pos + 1, bytesLeft - 1;
      ok := true;
    }

    /** The stream has moved past the first n of the bytes it had. */
    twostate predicate Took(n: nat)
      requires old(Valid())
      reads this, buf
    {
      Within(old(pos + bytesLeft)) && pos == old(pos) + n && n <= old(bytesLeft) && Rest() == old(Rest())[n..]
    }

    /** The stream has not left the window it had. */
    twostate predicate Inside()
      requires old(Valid())
      reads this
    {
      Valid() && old(pos) <= pos && pos + bytesLeft <= old(pos + bytesLeft)
    }

    method DecodeVarint() returns (ok: bool, value: nat)
      requires Valid()
      modifies this
      ensures Inside() && Within(old(pos + bytesLeft))
      ensures match Varint.Read64(old(Rest()))
              case Bad => !ok
              case Good(v, n) => ok && value == v && Took(n)
    {
      ghost var s := Rest();
      ghost var i: nat := 0;
      Varint.Read64LoopCorrect(s);
      value, ok := 0, false;
      var bitpos: nat, more := 0, true;
      while more
        invariant Within(old(pos + bytesLeft)) && pos == old(pos) + i
        invariant i <= |s| && Rest() == s[i..]
        invariant more ==> Varint.Read64(s) ==
                           match Varint.Read64Loop(Rest(), bitpos, value) case Bad => Bad case Good(v, n) => Good(v, n + i)
        invariant !more ==> Varint.Read64(s) == Good(value, i)
        decreases bytesLeft, more
      {
        if bitpos >= 64 { return; }
        var got, b := ReadByte();
        if !got { return; }
        i := i + 1;
        value := Varint.Merge64(value, b, bitpos);
        bitpos := bitpos + 7;
        more := b >= 128;
      }
      ok := true;
    }

    /** Also tells whether the stream was already at its end. */
    method DecodeVarint32() returns (ok: bool, value: nat, eof: bool)
      requires Valid()
      modifies this
      ensures Inside() && Within(old(pos + bytesLeft))
      ensures eof == (old(Rest()) == [])
      ensures match Varint.Read32(old(Rest()))
              case Bad => !ok
              case Good(v, n) => ok && value == v < TWO_32 && 1 <= n && Took(n)
    {
      hide Or, Pow2, Varint.SignExtension;
      ghost var s := Rest();
      if Varint.Read32(s).Good? { Varint.Read32Bound(s); }
      ok, value, eof := false, 0, false;
      var got, b := ReadByte();
      if !got { return false, 0, true; }
      if b < 128 { return true, b, false; }
      var bitpos: nat, more := 7, true;
      value := b - 128;
      ghost var i: nat := 1;
      while more
        invariant Within(old(pos + bytesLeft)) && pos == old(pos) + i
        invariant 1 <= i <= |s| && Rest() == s[i..]
        invariant more ==> Varint.Read32(s) ==
                           match Varint.Read32Loop(Rest(), bitpos, value) case Bad => Bad case Good(v, n) => Good(v, n + i)
        invariant !more ==> Varint.Read32(s) == if bitpos == 35 && b >= 16 then Bad else Good(value, i)
        decreases bytesLeft, more
      {
        got, b := ReadByte();
        if !got { return; }
        i := i + 1;
        if bitpos >= 32 {
          if b % 128 != 0 && (value < TWO_31 || b != Varint.SignExtension(bitpos)) { return; }
        } else {
          value := Or(value, b % 128 * Pow2(bitpos) % TWO_32);
        }
        bitpos := (bitpos + 7) % 256;
        more := b >= 128;
      }
      if bitpos == 35 && b >= 16 { return; }
      ok := true;
    }

    method DecodeTag() returns (ok: bool, wt: nat, tag: nat, eof: bool)
      requires Valid()
      modifies this
      ensures Inside() && Within(old(pos + bytesLeft))
      ensures match Varint.Read32(old(Rest()))
              case Bad => !ok && eof == (old(Rest()) == [])
              case Good(key, n) =>
                1 <= n && Took(n) && (if key == 0 then !ok && eof else ok && tag == key / 8 && wt == key % 8)
    {
      wt, tag := 0, 0;
      var key;
      ok, key, eof := DecodeVarint32();
      if !ok { return; }
      if key == 0 { return false, wt, tag, true; }
      tag, wt := key / 8, key % 8;
    }

    method SkipVarint() returns (ok: bool)
      requires Valid()
      modifies this
      ensures Inside() && Within(old(pos + bytesLeft))
      ensures match Varint.Extent(old(Rest())) case None => !ok case Some(n) => ok && Took(n)
    {
      ghost var s := Rest();
      ghost var i: nat := 0;
      var more := true;
      ok := false;
      while more
        invariant Within(old(pos + bytesLeft)) && pos == old(pos) + i
        invariant i <= |s| && Rest() == s[i..]
        invariant more ==> Varint.Extent(s) == match Varint.Extent(Rest()) case None => None case Some(n) => Some(n + i)
        invariant !more ==> Varint.Extent(s) == Some(i)
        decreases bytesLeft, more
      {
        var got, data := Read(1);
        if !got { return; }
        i := i + 1;
        more := data[0] >= 128;
      }
      ok := true;
    }

    method SkipString() returns (ok: bool)
      requires Valid()
      modifies this
      ensures Inside() && Within(old(pos + bytesLeft))
      ensures match ReadDelimited(old(Rest())) case Bad => !ok case Good(_, n) => ok && Took(n)
    {
      var size, eof, data;
      ok, size, eof := DecodeVarint32();
      if !ok { return; }
      ok, data := Read(size);
    }

    /** Reads a length that passed the caller's checks, and then that many bytes. */
    method ReadPayload(size: nat, ghost s: seq<byte>, ghost n: nat) returns (ok: bool, data: seq<byte>)
      requires Valid() && n <= |s| && Rest() == s[n..]
      modifies this
      ensures Within(old(pos + bytesLeft))
      ensures ok == (n + size <= |s|)
      ensures ok ==> data == s[n..n + size] && Rest() == s[n + size..] && pos == old(pos) + size
      ensures !ok ==> pos == old(pos)
    {
      ok, data := Read(size);
      if ok {
        assert s[n..][..size] == s[n..n + size];
        assert s[n..][size..] == s[n + size..];
      }
    }

    /** Skips the payload of an unknown field by its wire type. */
    method SkipField(wt: nat) returns (ok: bool)
      requires Valid()
      modifies this
      ensures Inside() && Within(old(pos + bytesLeft))
      ensures match ReadRaw(SkipShape(wt), old(Rest())) case Bad => !ok case Good(_, n) => ok && Took(n)
    {
      var data;
      if wt == WT_VARINT {
        ok := SkipVarint();
      } else if wt == WT_64BIT {
        ok, data := Read(8);
      } else if wt == WT_STRING {
        ok := SkipString();
      } else if wt == WT_32BIT {
        ok, data := Read(4);
      } else {
        ok := false;
      }
    }

    /** Splits off the next length-delimited payload.  Until the substream is closed, this stream
        already has the payload's length deducted but still stands before it. */
    method MakeStringSubstream() returns (ok: bool, sub: IStream?)
      requires Valid()
      modifies this
      ensures Inside()
      ensures match ReadDelimited(old(Rest()))
              case Bad => !ok && sub == null && Within(old(pos + bytesLeft))
              case Good(b, n) =>
                && ok && sub != null && fresh(sub) && sub.Valid() && sub.buf == buf && sub.pos == pos && sub.Rest() == b
                && pos + |b| == old(pos) + n && bytesLeft + n == old(bytesLeft)
    {
      sub := null;
      var size, eof;
      ok, size, eof := DecodeVarint32();
      if !ok { return; }
      if bytesLeft < size { return false, null; }
      sub := new IStream.Sub(this, size);
      bytesLeft := bytesLeft - size;
    }

    /** Returns to the parent, exactly past the payload however much of it was read. */
    method CloseStringSubstream(sub: IStream) returns (ok: bool)
      requires Valid() && sub.Valid() && sub != this && sub.buf == buf
      requires sub.pos + sub.bytesLeft + bytesLeft <= buf.Length
      modifies this, sub
      ensures ok && Valid() && bytesLeft == old(bytesLeft) && pos == old(sub.pos + sub.bytesLeft)
    {
      if sub.bytesLeft != 0 {
        var data;
        ok, data := sub.Read(sub.bytesLeft);
        if !ok { return; }
      }
      pos := sub.pos;
      ok := true;
    }
  }
}
