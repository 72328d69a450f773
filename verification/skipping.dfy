/** What the encoder writes can be skipped by a reader that does not know it: every field says by its wire type
    alone where it ends. */
module Skipping {
  import opened Bits
  import opened Descriptor
  import opened Wire
  import opened Encoder
  import opened Decoder
  import opened RoundTrip
  import opened Streams
  import opened Ordering
  import Varint

  /** The length of the payload at the front of p, by the number of its wire type. */
  function PayloadLength(wt: nat, p: seq<byte>): Option<nat> {
    if wt == 0 then Varint.Extent(p)
    else if wt == 1 then if |p| >= 8 then Some(8) else None
    else if wt == 5 then if |p| >= 4 then Some(4) else None
    else if wt == 2 then
      match Varint.Read32(p)
      case Bad => None
      case Good(size, n) => if n + size <= |p| then Some(n + size) else None
    else None
  }

  /** None of the fields is known under the other descriptor. */
  predicate Lacks(other: seq<Field>, tag: nat) { Find(other, tag).None? && (other == [] ==> tag != 0) }

  lemma {:induction false} PayloadSkipped(wt: nat, p: seq<byte>)
    ensures match PayloadLength(wt, p)
            case None => ReadRaw(SkipShape(wt), p).Bad?
            case Some(n) => ReadRaw(SkipShape(wt), p).Good? && ReadRaw(SkipShape(wt), p).len == n
  {
    if Varint.Read32(p).Good? { Varint.Read32Extent(p); Varint.ExtentBound(p); }
    hide Varint.Read32, Varint.Extent;
  }

  /** A field that is not known is skipped exactly when the number of its wire type gives its payload a length,
      and takes that many bytes after its key. */
  lemma {:induction false} UnknownSkipped(other: seq<Field>, s: seq<byte>)
    requires var k := Varint.Read32(s); k.Good? && k.value != 0 && Lacks(other, k.value / 8)
    ensures var k := Varint.Read32(s);
            && k.len <= |s|
            && match PayloadLength(k.value % 8, s[k.len..])
               case None => ReadRecord(other, s) == Malformed
               case Some(n) =>
                 && ReadRecord(other, s).Item? && ReadRecord(other, s).len == k.len + n
                 && ReadRecord(other, s).rec.tag == k.value / 8 && ReadRecord(other, s).rec.wt == k.value % 8
  {
    Varint.Read32Extent(s);
    Varint.ExtentBound(s);
    var k := Varint.Read32(s);
    PayloadSkipped(k.value % 8, s[k.len..]);
    hide Varint.Read32, Varint.Extent, PayloadLength, ReadRaw, SkipShape, Find;
  }

  /** A payload the field decoder takes is as long as the wire type of its field says. */
  lemma {:induction false} KnownLength(f: Field, p: seq<byte>)
    requires var r := ReadRaw(FieldShape(f, WireNumber(f)), p); r.Good? && r.len == |p|
    ensures PayloadLength(WireNumber(f), p) == Some(|p|)
  {
    if Varint.Read32(p).Good? { Varint.Read32Extent(p); Varint.ExtentBound(p); }
    hide Varint.Read32, Varint.Extent;
  }

  /** A field as the encoder writes it is the same field for a reader that does not know it. */
  lemma {:induction false} FieldSkipped(fields: seq<Field>, other: seq<Field>, e: seq<byte>)
    requires TypedField(fields, e) && Lacks(other, ReadRecord(fields, e).rec.tag)
    ensures OneField(other, e)
    ensures ReadRecord(other, e).rec.tag == ReadRecord(fields, e).rec.tag && ReadRecord(other, e).rec.wt == ReadRecord(fields, e).rec.wt
  {
    var k := Varint.Read32(e);
    var r := ReadRecord(fields, e).rec;
    Varint.Read32Extent(e);
    Varint.ExtentBound(e);
    KnownLength(fields[Find(fields, r.tag).value], e[k.len..]);
    UnknownSkipped(other, e);
    hide Varint.Read32, PayloadLength, WireNumber, FieldShape, Lacks;
  }

  /** Both split into the same fields, of the same tags and wire types. */
  predicate SameKeys(rs: seq<Record>, qs: seq<Record>) {
    |rs| == |qs| && forall k :: 0 <= k < |rs| ==> rs[k].tag == qs[k].tag && rs[k].wt == qs[k].wt
  }

  lemma {:induction false} FieldsSkipped(fields: seq<Field>, other: seq<Field>, es: seq<seq<byte>>)
    requires AllFields(fields, es) && AllTyped(fields, es)
    requires forall i :: 0 <= i < |fields| ==> Lacks(other, fields[i].tag)
    ensures AllFields(other, es) && SameKeys(Records(fields, es), Records(other, es))
    decreases |es|
  {
    hide ReadRecord, Lacks;
    if es == [] { return; }
    assert TypedField(fields, es[0]);
    FieldSkipped(fields, other, es[0]);
    FieldsSkipped(fields, other, es[1..]);
    forall k | 0 <= k < |es| ensures OneField(other, es[k]) { if k > 0 { assert es[1..][k - 1] == es[k]; } }
  }

  /** e begins with the key 8 * tag + wire type of a field, and is as long as the number of that wire type says. */
  predicate SelfDelimiting(fields: seq<Field>, e: seq<byte>) {
    var k := Varint.Read32(e);
    && k.Good? && k.len <= |e|
    && exists i :: 0 <= i < |fields| && k.value == 8 * fields[i].tag + WireNumber(fields[i])
                   && PayloadLength(WireNumber(fields[i]), e[k.len..]) == Some(|e| - k.len)
  }

  lemma {:induction false} TypedDelimits(fields: seq<Field>, e: seq<byte>)
    requires TypedField(fields, e)
    ensures SelfDelimiting(fields, e)
  {
    var k := Varint.Read32(e);
    var r := ReadRecord(fields, e).rec;
    Varint.Read32Extent(e);
    Varint.ExtentBound(e);
    var i := Find(fields, r.tag).value;
    KnownLength(fields[i], e[k.len..]);
    assert k.value == 8 * fields[i].tag + WireNumber(fields[i]);
    hide Varint.Read32, PayloadLength, WireNumber, FieldShape;
  }

  /** The encoding of every normal message is a list of such fields, in the order of the table. */
  lemma {:induction false} EncodingDelimits(fields: seq<Field>, m: seq<Slot>) returns (es: seq<seq<byte>>)
    requires WellFormed(fields) && Normal(fields, m) && MessageReadable(fields, m)
    ensures Encode(fields, m).Some? && Concat(es) == Encode(fields, m).value
    ensures forall k :: 0 <= k < |es| ==> SelfDelimiting(fields, es[k])
    ensures AllFields(fields, es) && AllTyped(fields, es) && InTableOrder(fields, es, 0)
  {
    assert |m| == |fields|;
    hide WellFormed, Normal, MessageReadable, OneField, Typed, SelfDelimiting, EncodeFrom, InTableOrder;
    es := MessageFields(fields, m, 0);
    forall k | 0 <= k < |es| ensures SelfDelimiting(fields, es[k]) { TypedDelimits(fields, es[k]); }
  }

  /** Every encoding can be skipped: a reader with any other descriptor that lacks its tags splits it at the same
      places into fields with the same tags and wire types. */
  lemma {:induction false} EncodingSkipped(fields: seq<Field>, m: seq<Slot>, other: seq<Field>) returns (es: seq<seq<byte>>)
    requires WellFormed(fields) && Normal(fields, m) && MessageReadable(fields, m)
    requires forall i :: 0 <= i < |fields| ==> Find(other, fields[i].tag).None?
    ensures Encode(fields, m).Some? && Concat(es) == Encode(fields, m).value
    ensures AllFields(fields, es) && AllFields(other, es) && SameKeys(Records(fields, es), Records(other, es))
    ensures Lex(other, Encode(fields, m).value) == Some(Records(other, es))
    ensures Lex(fields, Encode(fields, m).value) == Some(Records(fields, es))
  {
    assert forall i :: 0 <= i < |fields| ==> fields[i].tag != 0 by {
      forall i | 0 <= i < |fields| ensures fields[i].tag != 0 { assert FieldOk(fields[i]); }
    }
    hide WellFormed, Normal, MessageReadable, Encode, OneField, TypedField, Records;
    es := EncodingDelimits(fields, m);
    FieldsSkipped(fields, other, es);
    LexConcat(fields, es, []);
    LexConcat(other, es, []);
    assert Concat(es) + [] == Concat(es);
    assert Records(fields, es) + [] == Records(fields, es) && Records(other, es) + [] == Records(other, es);
    assert Lex(fields, []) == Some([]) && Lex(other, []) == Some([]);
  }

  // ----- keys that are no field

  /** The length of the payload of a known field: a varint of at most ten bytes, four or eight bytes, or a length and
      so many bytes. */
  function KnownPayload(f: Field, wt: nat, p: seq<byte>): Option<nat> {
    if f.htype.Repeated? && f.Packable() && wt == 2 then PayloadLength(2, p)
    else match f.ltype
      case Fixed32Type => PayloadLength(5, p)
      case Fixed64Type => PayloadLength(1, p)
      case VarintType => ShortVarint(p)
      case UVarintType => ShortVarint(p)
      case SVarintType => ShortVarint(p)
      case _ => PayloadLength(2, p)
  }

  function ShortVarint(p: seq<byte>): Option<nat> {
    match Varint.Extent(p) case None => None case Some(n) => if n <= 10 then Some(n) else None
  }

  lemma {:induction false} PayloadTaken(f: Field, wt: nat, p: seq<byte>)
    ensures match KnownPayload(f, wt, p)
            case None => ReadRaw(FieldShape(f, wt), p).Bad?
            case Some(n) => ReadRaw(FieldShape(f, wt), p).Good? && ReadRaw(FieldShape(f, wt), p).len == n
  {
    if Varint.Read32(p).Good? { Varint.Read32Extent(p); Varint.ExtentBound(p); }
    hide Varint.Read32, Varint.Extent, Varint.Denoted;
  }

  /** A known field is read exactly when its payload is there, and takes just that. */
  lemma {:induction false} KnownTaken(fields: seq<Field>, s: seq<byte>, i: nat)
    requires var k := Varint.Read32(s); k.Good? && k.value != 0 && Find(fields, k.value / 8) == Some(i)
    ensures var k := Varint.Read32(s);
            && k.len <= |s|
            && match KnownPayload(fields[i], k.value % 8, s[k.len..])
               case None => ReadRecord(fields, s) == Malformed && Lex(fields, s) == None
               case Some(n) =>
                 && ReadRecord(fields, s).Item? && ReadRecord(fields, s).len == k.len + n
                 && ReadRecord(fields, s).rec.tag == k.value / 8 && ReadRecord(fields, s).rec.wt == k.value % 8
  {
    Varint.Read32Extent(s);
    Varint.ExtentBound(s);
    var k := Varint.Read32(s);
    PayloadTaken(fields[i], k.value % 8, s[k.len..]);
    hide Varint.Read32, Varint.Extent, KnownPayload, ReadRaw, FieldShape, Find;
  }

  /** A key that is cut off or too long is an error, not the end of the message. */
  lemma {:induction false} BadKeyRefused(fields: seq<Field>, s: seq<byte>)
    requires s != [] && Varint.Read32(s).Bad?
    ensures Lex(fields, s) == None
  {
  }

  /** A zero key ends the message, whatever follows, and however many bytes it takes. */
  lemma {:induction false} ZeroKeyEnds(fields: seq<Field>, s: seq<byte>)
    requires Varint.Read32(s).Good? && Varint.Read32(s).value == 0
    ensures Lex(fields, s) == Some([])
  {
  }

  /** Tag 0 with another wire type is an error for a message without fields, where the end marker has that tag. */
  lemma {:induction false} ZeroTagRefused(s: seq<byte>)
    requires var k := Varint.Read32(s); k.Good? && 0 < k.value < 8
    ensures Lex([], s) == None
  {
  }

  /** A field that is known, and cannot be packed, is read and stored without regard to its wire type. */
  lemma {:induction false} WireTypeIgnored(fields: seq<Field>, st: State, i: nat, wt: nat, wt': nat, p: seq<byte>)
    requires i < |fields| && DistinctTags(fields) && 1 <= fields[i].tag < TAG_LIMIT && wt < 8 && wt' < 8
    requires !(fields[i].htype.Repeated? && fields[i].Packable())
    ensures var tag := fields[i].tag;
            var a, b := ReadRecord(fields, Key(tag, wt) + p), ReadRecord(fields, Key(tag, wt') + p);
            && a.Item? == b.Item?
            && (a.Item? ==>
                  && a.rec == Record(tag, wt, a.rec.raw) && b.rec == Record(tag, wt', a.rec.raw)
                  && a.len - |Key(tag, wt)| == b.len - |Key(tag, wt')|
                  && ApplyRecord(fields, st, a.rec) == ApplyRecord(fields, st, b.rec))
  {
    hide ReadRaw, Key, ReadRecord, ApplyRecord, Find, DistinctTags;
    KeyThen(fields, i, wt, p);
    KeyThen(fields, i, wt', p);
    var raw := ReadRaw(FieldShape(fields[i], wt), p);
    assert FieldShape(fields[i], wt) == FieldShape(fields[i], wt');
    if raw.Good? { StoredAlike(fields, st, i, wt, wt', raw.value); }
  }

  lemma {:induction false} StoredAlike(fields: seq<Field>, st: State, i: nat, wt: nat, wt': nat, raw: Raw)
    requires i < |fields| && Find(fields, fields[i].tag) == Some(i) && !(fields[i].htype.Repeated? && fields[i].Packable())
    ensures ApplyRecord(fields, st, Record(fields[i].tag, wt, raw)) == ApplyRecord(fields, st, Record(fields[i].tag, wt', raw))
  {
    hide DecodeValue, Home, Releasable, DefaultValue;
  }

  lemma {:induction false} KeyThen(fields: seq<Field>, i: nat, wt: nat, p: seq<byte>)
    requires i < |fields| && DistinctTags(fields) && 1 <= fields[i].tag < TAG_LIMIT && wt < 8
    ensures Find(fields, fields[i].tag) == Some(i)
    ensures var tag, r := fields[i].tag, ReadRaw(FieldShape(fields[i], wt), p);
            ReadRecord(fields, Key(tag, wt) + p) == if r.Bad? then Malformed else Item(Record(tag, wt, r.value), |Key(tag, wt)| + r.len)
  {
    var key := fields[i].tag * 8 + wt;
    Varint.RoundTrip32(key, p);
    assert (Key(fields[i].tag, wt) + p)[|Key(fields[i].tag, wt)|..] == p;
    assert key / 8 == fields[i].tag && key % 8 == wt;
    hide ReadRaw, FieldShape, Varint.Read32, Varint.Encode;
  }
}
