/** The two halves of the codec as they run, put together. */
module Codec {
  import opened Bits
  import opened Descriptor
  import opened Encoder
  import opened RoundTrip
  import opened InputStream
  import opened OutputStream
  import Decoder
  import MessageDecoder
  import MessageEncoder

  /** Well-formed descriptors are tables the code accepts. */
  lemma {:induction false} WellFormedTable(fields: seq<Field>)
    requires WellFormed(fields)
    ensures Table(fields)
    decreases fields
  {
    forall i | 0 <= i < |fields|
      ensures Entry(fields[i])
    {
      FieldEntry(fields[i]);
    }
  }

  lemma {:induction false} FieldEntry(f: Field)
    requires FieldOk(f)
    ensures Entry(f)
    decreases f
  {
    if f.ltype.SubMessage? { WellFormedTable(f.ltype.sub); }
  }

  lemma {:induction false} NormalValueShaped(f: Field, v: Value)
    requires FieldOk(f) && NormalValue(f, v)
    ensures ShapedValue(f, v)
    decreases f, 0
  {
    if f.ltype.SubMessage? { NormalShaped(f.ltype.sub, v.slots); }
  }

  /** Normal messages are structs their descriptor describes, whatever stands in members that are
      absent. */
  lemma {:induction false} NormalShaped(fields: seq<Field>, m: seq<Slot>)
    requires WellFormed(fields) && Normal(fields, m)
    ensures Shaped(fields, m)
    decreases fields, 1
  {
    forall i | 0 <= i < |fields|
      ensures ShapedSlot(fields[i], m[Home(fields, i)])
    {
      NormalSlotShaped(fields, m, i);
    }
  }

  lemma {:induction false} NormalSlotShaped(fields: seq<Field>, m: seq<Slot>, i: nat)
    requires i < |fields| && WellFormed(fields) && Normal(fields, m)
    ensures ShapedSlot(fields[i], m[Home(fields, i)])
    decreases fields, 0
  {
    var f, slot := fields[i], m[Home(fields, i)];
    HomeKind(fields, i);
    SlotKinds(fields, m, i);
    assert NormalSlot(f, m[i]) && FieldOk(f);
    if f.htype.OneOf? { SelectedField(fields, m, i); }
    hide Normal, WellFormed, NormalValue, ShapedValue, FieldOk;
    match slot
    case Array(items) =>
      forall k | 0 <= k < |items| ensures ShapedValue(f, items[k]) { NormalValueShaped(f, items[k]); }
    case Single(v) => NormalValueShaped(f, v);
    case Flagged(has, v) => if has { NormalValueShaped(f, v); }
    case Union(which, v) => if which == f.tag { NormalValueShaped(f, v); }
  }

  lemma {:induction false} Codable(fields: seq<Field>, m: seq<Slot>)
    requires WellFormed(fields) && Normal(fields, m)
    ensures Table(fields) && Shaped(fields, m)
  {
    WellFormedTable(fields);
    NormalShaped(fields, m);
  }

  /** The bytes of a message, in front of a buffer. */
  method EncodeInto(fields: seq<Field>, m: seq<Slot>, buf: array<byte>) returns (ok: bool, n: nat)
    requires Table(fields) && Shaped(fields, m)
    modifies buf
    ensures ok <==> Encode(fields, m).Some? && |Encode(fields, m).value| <= buf.Length
    ensures ok ==> n <= buf.Length && buf[..n] == Encode(fields, m).value
  {
    hide Table, Shaped, Encode;
    var target := new OStream.FromBuffer(buf);
    ok := MessageEncoder.EncodeMessage(target, fields, m);
    n := target.bytesWritten;
  }

  method DecodeFrom(fields: seq<Field>, buf: array<byte>, n: nat) returns (ok: bool, out: seq<Slot>)
    requires Table(fields) && n <= buf.Length
    ensures MessageDecoder.Decoded(Decoder.Decode(fields, buf[..n]), ok, out)
  {
    hide Table, Decoder.Decode;
    var source := new IStream.FromBuffer(buf, n);
    ok, out := MessageDecoder.Decode(source, fields);
  }

  /** Encoding a normal message into a buffer succeeds exactly when it fits, and decoding the bytes
      written gives what arrives of it: the message itself exactly when it is kept. */
  method EncodeAndDecode(fields: seq<Field>, m: seq<Slot>, buf: array<byte>) returns (ok: bool, out: seq<Slot>)
    requires WellFormed(fields) && Normal(fields, m) && MessageReadable(fields, m)
    modifies buf
    ensures Encode(fields, m).Some? && ok == (|Encode(fields, m).value| <= buf.Length)
    ensures ok ==> out == Arriving(fields, m) && (out == m <==> Kept(fields, m))
  {
    assert |m| == |fields|;
    hide Table, WellFormed, Shaped, Normal, Encode, MessageReadable, Decoder.Decode, Arriving, Kept;
    Codable(fields, m);
    MessageRoundTrip(fields, m);
    ArrivingKept(fields, m);
    out := [];
    var n;
    ok, n := EncodeInto(fields, m, buf);
    if ok { ok, out := DecodeFrom(fields, buf, n); }
  }

  /** The size the sizing pass reports is the one a buffer needs. */
  method EncodeToFit(fields: seq<Field>, m: seq<Slot>) returns (buf: array<byte>, size: nat)
    requires WellFormed(fields) && Normal(fields, m)
    ensures fresh(buf) && Encode(fields, m) == Some(buf[..]) && size == buf.Length
  {
    hide Table, WellFormed, Shaped, Normal, Encode;
    Codable(fields, m);
    EncodeTotal(fields, m);
    var ok, n;
    ok, size := MessageEncoder.GetEncodedSize(fields, m);
    buf := new byte[size](_ => 0);
    ok, n := EncodeInto(fields, m, buf);
    assert buf[..size] == buf[..];
  }
}
