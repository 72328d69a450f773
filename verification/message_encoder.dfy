/** The message encoder as it runs: one pass to size a submessage, one to write it. */
module MessageEncoder {
  import opened Bits
  import opened Descriptor
  import opened Wire
  import opened Encoder
  import opened FieldIter
  import opened OutputStream
  import Decoder
  import Varint

  // ----- field encoders

  method EncNumber(stream: OStream, f: Field, v: Value) returns (ok: bool)
    requires stream.Valid() && f.Packable() && ShapedValue(f, v)
    modifies stream.Frame()
    ensures stream.Wrote(EncodeScalar(f, v), ok)
  {
    match f.ltype
    case Fixed32Type => ok := stream.EncodeFixed32(v.n);
    case Fixed64Type => ok := stream.EncodeFixed64(v.n);
    case VarintType =>
      if !NumericSize(f.dataSize) { return false; }
      ok := stream.EncodeVarint(ToUnsigned64(v.n));
    case UVarintType =>
      if !NumericSize(f.dataSize) { return false; }
      ok := stream.EncodeVarint(v.n);
    case SVarintType =>
      if !NumericSize(f.dataSize) { return false; }
      ok := stream.EncodeSvarint(v.n);
  }

  method EncBytes(stream: OStream, f: Field, v: Value) returns (ok: bool)
    requires stream.Valid() && f.ltype.BytesType? && v.Blob?
    modifies stream.Frame()
    ensures stream.Wrote(EncodeScalar(f, v), ok)
  {
    if |v.b| + BYTES_HEADER > f.dataSize { return false; }
    ok := stream.EncodeString(v.b);
  }

  lemma {:induction false} CStringStep(b: seq<byte>, n: nat)
    requires n <= |b| && CString(b) == b[..n] + CString(b[n..])
    ensures if n == |b| || b[n] == 0 then CString(b) == b[..n] else CString(b) == b[..n + 1] + CString(b[n + 1..])
  {
    var tail := b[n..];
    assert CString(tail) == if n == |b| || b[n] == 0 then [] else [b[n]] + CString(tail[1..]);
    hide CString;
    if n == |b| || b[n] == 0 {
      assert b[..n] + [] == b[..n];
    } else {
      assert tail[1..] == b[n + 1..];
      Regroup(b[..n], b[n], CString(b[n + 1..]));
      assert b[..n] + [b[n]] == b[..n + 1];
    }
  }

  lemma {:induction false} Regroup(a: seq<byte>, x: byte, c: seq<byte>)
    ensures a + ([x] + c) == (a + [x]) + c
  {
  }

  /** Length up to the NUL, or to the end of the buffer. */
  method MeasureString(b: seq<byte>, maxSize: nat) returns (n: nat)
    requires |b| <= maxSize
    ensures n <= |b| && b[..n] == CString(b)
  {
    n := 0;
    assert b[..0] + CString(b[0..]) == CString(b) by { assert b[0..] == b; }
    hide CString;
    while n < maxSize && n < |b| && b[n] != 0
      invariant n <= |b| && CString(b) == b[..n] + CString(b[n..])
    {
      CStringStep(b, n);
      n := n + 1;
    }
    CStringStep(b, n);
  }

  method EncString(stream: OStream, f: Field, v: Value) returns (ok: bool)
    requires stream.Valid() && f.ltype.StringType? && ShapedValue(f, v)
    modifies stream.Frame()
    ensures stream.Wrote(EncodeScalar(f, v), ok)
  {
    var size := MeasureString(v.b, f.dataSize);
    ok := stream.EncodeString(v.b[..size]);
  }

  method EncScalar(stream: OStream, f: Field, v: Value) returns (ok: bool)
    requires stream.Valid() && !f.ltype.SubMessage? && ShapedValue(f, v)
    modifies stream.Frame()
    ensures stream.Wrote(EncodeScalar(f, v), ok)
  {
    if f.Packable() {
      ok := EncNumber(stream, f, v);
    } else if f.ltype.BytesType? {
      ok := EncBytes(stream, f, v);
    } else if f.ltype.StringType? {
      ok := EncString(stream, f, v);
    } else {
      ok := stream.EncodeString(v.b);
    }
  }

  // ----- the proto3 zero test

  method CheckProto3Default(f: Field, slot: Slot) returns (zero: bool)
    requires Entry(f) && ShapedSlot(f, slot) && (f.FixedCount() ==> CountKnown(f))
    ensures zero == IsZero(f, slot)
    decreases f
  {
    match f.htype
    case Required => zero := false;
    case Repeated =>
      var count := if f.sizeOffset != 0 then |slot.items| else StoredCount(f, slot.items);
      zero := count == 0;
    case OneOf => zero := slot.which == 0;
    case Optional =>
      if f.sizeOffset != 0 { return !slot.has; }
      match f.ltype
      case BytesType => zero := slot.v.b == [];
      case StringType => zero := slot.v.b == [] || slot.v.b[0] == 0;
      case FixedLengthBytes => zero := f.dataSize == 0;
      case SubMessage(sub) => zero := CheckSubmessage(sub, slot.v.slots);
      case VarintType => zero := slot.v.n == 0;
      case UVarintType => zero := slot.v.n == 0;
      case SVarintType => zero := slot.v.n == 0;
      case Fixed32Type => zero := slot.v.n == 0;
      case Fixed64Type => zero := slot.v.n == 0;
  }

  method CheckSubmessage(sub: seq<Field>, slots: seq<Slot>) returns (zero: bool)
    requires Table(sub) && Shaped(sub, slots)
    requires forall i :: 0 <= i < |sub| && sub[i].FixedCount() ==> CountKnown(sub[i])
    ensures zero <==> forall i :: 0 <= i < |sub| ==> IsZero(sub[i], slots[Home(sub, i)])
    decreases sub
  {
    EntryTags(sub);
    var iter := new Iter(sub);
    if sub == [] { return true; }
    var more := true;
    ghost var k := 0;
    while more
      invariant iter.Valid() && iter.fields == sub && k <= |sub|
      invariant k == if more then iter.pos else |sub|
      invariant forall i :: 0 <= i < k ==> IsZero(sub[i], slots[Home(sub, i)])
      decreases |sub| - k
    {
      assert Entry(sub[iter.pos]) && ShapedSlot(sub[iter.pos], slots[Home(sub, iter.pos)]);
      zero := CheckProto3Default(sub[iter.pos], slots[Home(sub, iter.pos)]);
      if !zero { return; }
      k := k + 1;
      more := iter.Next();
    }
    zero := true;
  }

  lemma {:induction false} EntryTags(fields: seq<Field>)
    requires Table(fields)
    ensures forall i :: 0 <= i < |fields| ==> fields[i].tag != 0
  {
    forall i | 0 <= i < |fields|
      ensures fields[i].tag != 0
    {
      assert Entry(fields[i]);
    }
  }

  // ----- fields

  method EncodeTagged(stream: OStream, f: Field, v: Value) returns (ok: bool)
    requires stream.Valid() && Entry(f) && ShapedValue(f, v)
    modifies stream.Frame()
    ensures stream.Wrote(EncodeKeyed(f, v), ok)
    decreases f, 1
  {
    hide EncodeValue, ShapedValue, Entry, Key, OStream.Grown;
    ghost var text, start, count := stream.Text(), stream.pos, stream.bytesWritten;
    ghost var key := Key(f.tag, FieldWireType(f.ltype));
    ok := stream.EncodeTagForField(f);
    if !ok { return; }
    label tagged:
    ok := EncValue(stream, f, v);
    stream.Continue@tagged(text, start, count, key, EncodeValue(f, v), ok);
  }

  method EncValue(stream: OStream, f: Field, v: Value) returns (ok: bool)
    requires stream.Valid() && Entry(f) && ShapedValue(f, v)
    modifies stream.Frame()
    ensures stream.Wrote(EncodeValue(f, v), ok)
    decreases f, 0
  {
    if f.ltype.SubMessage? {
      ok := EncodeSubmessage(stream, f.ltype.sub, v.slots);
    } else {
      ok := EncScalar(stream, f, v);
    }
  }

  /** First sizes the submessage, then writes it through a stream of exactly that size. */
  method EncodeSubmessage(stream: OStream, sub: seq<Field>, slots: seq<Slot>) returns (ok: bool)
    requires stream.Valid() && Table(sub) && Shaped(sub, slots)
    modifies stream.Frame()
    ensures stream.Wrote(match Encode(sub, slots) case None => None case Some(b) => Some(Delimit(b)), ok)
    decreases sub, 10
  {
    hide Table, Shaped, Encode, Varint.Encode;
    var sizing := new OStream.Sizing();
    ok := EncodeMessage(sizing, sub, slots);
    if !ok { return; }
    var size := sizing.bytesWritten;
    ghost var b := Encode(sub, slots).value;
    ok := stream.EncodeVarint(size % TWO_64);
    if !ok { return; }
    ok := WriteSized(stream, sub, slots, size);
    assert stream.buf != null && ok ==> old(stream.Text()) + Varint.Encode(|b| % TWO_64) + b == old(stream.Text()) + Delimit(b);
  }

  /** The second pass.  Its substream verifies that the size has not changed: it never does. */
  method WriteSized(stream: OStream, sub: seq<Field>, slots: seq<Slot>, size: nat) returns (ok: bool)
    requires stream.Valid() && Table(sub) && Shaped(sub, slots)
    requires Encode(sub, slots).Some? && |Encode(sub, slots).value| == size
    modifies stream.Frame()
    ensures stream.Wrote(Encode(sub, slots), ok)
    decreases sub, 9
  {
    if stream.buf == null {
      ok := stream.Write([], size);
      return;
    }
    if stream.bytesWritten + size > stream.maxSize { return false; }
    var substream := new OStream.Sub(stream, size);
    var status := EncodeMessage(substream, sub, slots);
    stream.bytesWritten := stream.bytesWritten + substream.bytesWritten;
    stream.pos := substream.pos;
    assert substream.bytesWritten == size;
    if substream.bytesWritten != size { return false; }
    ok := status;
  }

  // ----- arrays

  lemma {:induction false} FixedItemsLength(f: Field, items: seq<Value>)
    requires f.ltype.Fixed32Type? || f.ltype.Fixed64Type?
    requires ShapedItems(f, items)
    ensures EncodeItems(f, items).Some?
    ensures |EncodeItems(f, items).value| == (if f.ltype.Fixed32Type? then 4 else 8) * |items|
  {
    if items != [] {
      assert ShapedItems(f, items[1..]);
      FixedItemsLength(f, items[1..]);
    }
  }

  /** Writes, or counts, all elements of a packable array. */
  method EncodeElements(stream: OStream, f: Field, items: seq<Value>) returns (ok: bool)
    requires stream.Valid() && f.Packable() && ShapedItems(f, items)
    modifies stream.Frame()
    ensures stream.Wrote(EncodeItems(f, items), ok)
  {
    hide EncodeScalar, EncodeNumber, ShapedValue;
    ok := true;
    ghost var done: seq<byte> := [];
    assert items[0..] == items;
    JoinEmpty(EncodeItems(f, items));
    ghost var text, start, count := stream.Text(), stream.pos, stream.bytesWritten;
    for i := 0 to |items|
      invariant stream.Grown(text, start, count, done) && (stream.buf == null || count + |done| <= stream.maxSize)
      invariant EncodeItems(f, items) == Join(Some(done), EncodeItems(f, items[i..]))
    {
      ghost var e := EncodeScalar(f, items[i]);
      assert items[i..][1..] == items[i + 1..];
      assert EncodeItems(f, items[i..]) == Join(e, EncodeItems(f, items[i + 1..]));
      hide EncodeItems, Join, OStream.Grown;
      JoinStep(done, e, EncodeItems(f, items[i + 1..]));
      label before:
      ok := EncNumber(stream, f, items[i]);
      stream.Continue@before(text, start, count, done, e, ok);
      if !ok { return; }
      done := done + e.value;
    }
    assert done + [] == done;
  }

  lemma {:induction false} JoinEmpty(e: Option<seq<byte>>)
    ensures Join(Some([]), e) == e
  {
    if e.Some? { assert [] + e.value == e.value; }
  }

  lemma {:induction false} JoinStep(done: seq<byte>, e: Option<seq<byte>>, rest: Option<seq<byte>>)
    ensures Join(Some(done), Join(e, rest)) == if e.Some? then Join(Some(done + e.value), rest) else None
    ensures var all := Join(Some(done), Join(e, rest)); all.Some? ==> e.Some? && |all.value| >= |done| + |e.value|
  {
    if e.Some? && rest.Some? { assert done + (e.value + rest.value) == done + e.value + rest.value; }
  }

  /** A static array: packed when the type allows, with the size computed first. */
  method EncodeStaticArray(stream: OStream, f: Field, items: seq<Value>) returns (ok: bool)
    requires stream.Valid() && Entry(f) && ShapedItems(f, items)
    modifies stream.Frame()
    ensures stream.Wrote(EncodeArray(f, items), ok)
    decreases f, 3
  {
    if |items| == 0 { return true; }
    if |items| > f.arraySize { return false; }
    if f.Packable() {
      ok := EncodePacked(stream, f, items);
    } else {
      ok := EncodeEach(stream, f, items);
    }
  }

  /** The size of a packed array: a product for fixed-width elements, a counting pass otherwise. */
  method SizePacked(f: Field, items: seq<Value>) returns (ok: bool, size: nat)
    requires f.Packable() && ShapedItems(f, items)
    ensures ok == EncodeItems(f, items).Some?
    ensures ok ==> size == |EncodeItems(f, items).value|
  {
    if f.ltype.Fixed32Type? {
      FixedItemsLength(f, items);
      return true, 4 * |items|;
    } else if f.ltype.Fixed64Type? {
      FixedItemsLength(f, items);
      return true, 8 * |items|;
    }
    var sizing := new OStream.Sizing();
    ok := EncodeElements(sizing, f, items);
    size := sizing.bytesWritten;
  }

  lemma {:induction false} DelimitedText(key: seq<byte>, b: seq<byte>)
    ensures key + Delimit(b) == key + Varint.Encode(|b| % TWO_64) + b
  {
    hide Varint.Encode;
  }

  /** The elements of a packed array, whose size is known: a sizing stream only counts them. */
  method WritePacked(stream: OStream, f: Field, items: seq<Value>, size: nat) returns (ok: bool)
    requires stream.Valid() && f.Packable() && ShapedItems(f, items)
    requires EncodeItems(f, items).Some? && |EncodeItems(f, items).value| == size
    modifies stream.Frame()
    ensures stream.Wrote(EncodeItems(f, items), ok)
  {
    hide EncodeItems, ShapedItems, ShapedValue;
    if stream.buf == null {
      ok := stream.Write([], size);
      return;
    }
    ok := EncodeElements(stream, f, items);
  }

  method EncodePacked(stream: OStream, f: Field, items: seq<Value>) returns (ok: bool)
    requires stream.Valid() && f.Packable() && ShapedItems(f, items)
    modifies stream.Frame()
    ensures stream.Wrote(match EncodeItems(f, items) case None => None case Some(b) => Some(Key(f.tag, WT_STRING) + Delimit(b)), ok)
  {
    hide EncodeItems, Key, ShapedItems, ShapedValue, Delimit, Varint.Encode, OStream.Grown;
    ghost var text, start, count := stream.Text(), stream.pos, stream.bytesWritten;
    ghost var key := Key(f.tag, WT_STRING);
    ok := stream.EncodeTag(WT_STRING, f.tag);
    if !ok { return; }
    var size;
    ok, size := SizePacked(f, items);
    if !ok { return; }
    ghost var e := EncodeItems(f, items);
    ghost var prefix := Varint.Encode(size % TWO_64);
    DelimitedText(key, e.value);
    label sized:
    ok := stream.EncodeVarint(size % TWO_64);
    stream.Continue@sized(text, start, count, key, Some(prefix), ok);
    if !ok { return; }
    label written:
    ok := WritePacked(stream, f, items, size);
    stream.Continue@written(text, start, count, key + prefix, e, ok);
  }

  method EncodeEach(stream: OStream, f: Field, items: seq<Value>) returns (ok: bool)
    requires stream.Valid() && Entry(f) && ShapedItems(f, items)
    modifies stream.Frame()
    ensures stream.Wrote(EncodeUnpacked(f, items), ok)
    decreases f, 2
  {
    hide EncodeKeyed, ShapedValue, Entry;
    ok := true;
    ghost var done: seq<byte> := [];
    assert items[0..] == items;
    JoinEmpty(EncodeUnpacked(f, items));
    ghost var text, start, count := stream.Text(), stream.pos, stream.bytesWritten;
    for i := 0 to |items|
      invariant stream.Grown(text, start, count, done) && (stream.buf == null || count + |done| <= stream.maxSize)
      invariant EncodeUnpacked(f, items) == Join(Some(done), EncodeUnpacked(f, items[i..]))
    {
      ghost var e := EncodeKeyed(f, items[i]);
      assert items[i..][1..] == items[i + 1..];
      assert EncodeUnpacked(f, items[i..]) == Join(e, EncodeUnpacked(f, items[i + 1..]));
      hide EncodeUnpacked, Join, OStream.Grown;
      JoinStep(done, e, EncodeUnpacked(f, items[i + 1..]));
      label before:
      ok := EncodeTagged(stream, f, items[i]);
      stream.Continue@before(text, start, count, done, e, ok);
      if !ok { return; }
      done := done + e.value;
    }
    assert done + [] == done;
  }

  // ----- messages

  method EncodeBasicField(stream: OStream, f: Field, slot: Slot) returns (ok: bool)
    requires stream.Valid() && Entry(f) && ShapedSlot(f, slot)
    modifies stream.Frame()
    ensures stream.Wrote(EncodeSlot(f, slot), ok)
    decreases f, 4
  {
    match f.htype
    case Required => ok := EncodeTagged(stream, f, slot.v);
    case Optional =>
      var has;
      if f.sizeOffset != 0 {
        has := slot.has;
      } else {
        var zero := CheckProto3Default(f, slot);
        has := !zero;
      }
      ok := true;
      if has { ok := EncodeTagged(stream, f, slot.v); }
    case Repeated => ok := EncodeStaticArray(stream, f, slot.items);
    case OneOf =>
      ok := true;
      if slot.which == f.tag { ok := EncodeTagged(stream, f, slot.v); }
  }

  /** The field under the iterator. */
  method EncodeField(stream: OStream, fields: seq<Field>, slots: seq<Slot>, i: nat) returns (ok: bool)
    requires stream.Valid() && Table(fields) && Shaped(fields, slots) && i < |fields|
    modifies stream.Frame()
    ensures stream.Wrote(EncodeSlot(fields[i], slots[Home(fields, i)]), ok)
    decreases fields, 0
  {
    assert Entry(fields[i]) && ShapedSlot(fields[i], slots[Home(fields, i)]);
    hide EncodeSlot, Home, Table, Entry, Shaped, ShapedSlot;
    ok := EncodeBasicField(stream, fields[i], slots[Home(fields, i)]);
  }

  /** The field under the iterator, which then moves on; done is what was written before. */
  method EncodeNext(stream: OStream, iter: Iter, slots: seq<Slot>, ghost text: seq<byte>, ghost start: nat,
                    ghost count: nat, ghost done: seq<byte>)
    returns (ok: bool, more: bool, ghost e: Option<seq<byte>>)
    requires Table(iter.fields) && Shaped(iter.fields, slots) && |slots| == |iter.fields|
    requires iter.Valid() && iter.fields != [] && iter !in stream.Frame()
    requires stream.Grown(text, start, count, done) && (stream.buf == null || count + |done| <= stream.maxSize)
    modifies iter, stream.Frame()
    ensures stream.Valid() && iter.Valid()
    ensures e == EncodeSlot(iter.fields[old(iter.pos)], slots[Home(iter.fields, old(iter.pos))])
    ensures ok == (e.Some? && (stream.buf == null || count + |done| + |e.value| <= stream.maxSize))
    ensures ok ==> stream.Grown(text, start, count, done + e.value)
    ensures ok ==> more == (old(iter.pos) + 1 < |iter.fields|) && iter.pos == if more then old(iter.pos) + 1 else 0
    decreases iter.fields, 1
  {
    EntryTags(iter.fields);
    hide Table, Shaped, EncodeSlot, Home, Joined, DataAt, SizeAt, Decoder.RequiredIndex;
    more := false;
    e := EncodeSlot(iter.fields[iter.pos], slots[Home(iter.fields, iter.pos)]);
    label before:
    ok := EncodeField(stream, iter.fields, slots, iter.pos);
    stream.Continue@before(text, start, count, done, e, ok);
    if ok { more := iter.Next(); }
  }

  /** All fields in order, from the iterator at the first one. */
  method EncodeFields(stream: OStream, iter: Iter, slots: seq<Slot>) returns (ok: bool)
    requires stream.Valid() && Table(iter.fields) && Shaped(iter.fields, slots)
    requires iter.Valid() && iter.pos == 0 && iter.fields != [] && iter !in stream.Frame()
    modifies iter, stream.Frame()
    ensures stream.Wrote(EncodeFrom(iter.fields, slots, 0), ok)
    decreases iter.fields, 7
  {
    var fields := iter.fields;
    assert |slots| == |fields| by { assert Shaped(fields, slots); }
    hide Shaped, Table, EncodeSlot, EncodeFrom, Join, Joined, DataAt, SizeAt, Decoder.RequiredIndex, Home;
    var more := true;
    ghost var k: nat, done: seq<byte> := 0, [];
    ghost var text, start, count := stream.Text(), stream.pos, stream.bytesWritten;
    ghost var all := EncodeFrom(fields, slots, 0);
    JoinEmpty(all);
    assert text + done == text;
    while more
      invariant iter.Valid() && k <= |fields|
      invariant k == if more then iter.pos else |fields|
      invariant stream.Grown(text, start, count, done) && (stream.buf == null || count + |done| <= stream.maxSize)
      invariant all == Join(Some(done), EncodeFrom(fields, slots, k))
      decreases |fields| - k
    {
      hide OStream.Grown, Iter.Valid;
      EncodeFromStep(fields, slots, k);
      JoinStep(done, EncodeSlot(fields[k], slots[Home(fields, k)]), EncodeFrom(fields, slots, k + 1));
      ghost var e;
      ok, more, e := EncodeNext(stream, iter, slots, text, start, count, done);
      if !ok { return; }
      done, k := done + e.value, k + 1;
    }
    EncodeFromEnd(fields, slots);
    assert done + [] == done;
    ok := true;
  }

  lemma {:induction false} EncodeFromEnd(fields: seq<Field>, slots: seq<Slot>)
    requires |fields| == |slots|
    ensures EncodeFrom(fields, slots, |fields|) == Some([])
    ensures forall d: seq<byte> :: Join(Some(d), Some([])) == Some(d + [])
  {
  }

  lemma {:induction false} EncodeFromStep(fields: seq<Field>, slots: seq<Slot>, k: nat)
    requires k < |fields| == |slots|
    ensures EncodeFrom(fields, slots, k) ==
            Join(EncodeSlot(fields[k], slots[Home(fields, k)]), EncodeFrom(fields, slots, k + 1))
  {
  }

  method EncodeMessage(stream: OStream, fields: seq<Field>, slots: seq<Slot>) returns (ok: bool)
    requires stream.Valid() && Table(fields) && Shaped(fields, slots)
    modifies stream.Frame()
    ensures stream.Wrote(Encode(fields, slots), ok)
    decreases fields, 8
  {
    var iter := new Iter(fields);
    if fields == [] { return true; }
    ok := EncodeFields(stream, iter, slots);
  }

  /** The encoded size, without storing anything. */
  method GetEncodedSize(fields: seq<Field>, slots: seq<Slot>) returns (ok: bool, size: nat)
    requires Table(fields) && Shaped(fields, slots)
    ensures ok == Encode(fields, slots).Some?
    ensures ok ==> size == |Encode(fields, slots).value|
  {
    var stream := new OStream.Sizing();
    ok := EncodeMessage(stream, fields, slots);
    size := stream.bytesWritten;
  }
}
