/** For which message types the order of fields matters, decided from the descriptor. */
module Ordering {
  import opened Bits
  import opened Descriptor
  import opened Wire
  import opened Encoder
  import opened Decoder
  import opened RoundTrip
  import opened Streams

  /** The wire type a field is sent with: 0 for varints, 1 for eight bytes, 5 for four, and 2 for all that has a
      length, packed runs among it. */
  function WireNumber(f: Field): nat {
    if f.htype.Repeated? && f.Packable() then 2
    else match f.ltype
      case VarintType => 0
      case UVarintType => 0
      case SVarintType => 0
      case Fixed64Type => 1
      case Fixed32Type => 5
      case _ => 2
  }

  /** e is one field, sent with the wire type of its field. */
  predicate TypedField(fields: seq<Field>, e: seq<byte>) {
    OneField(fields, e) && Typed(fields, ReadRecord(fields, e).rec)
  }

  predicate Typed(fields: seq<Field>, r: Record) {
    Find(fields, r.tag).Some? && r.wt == WireNumber(fields[Find(fields, r.tag).value])
  }

  /** The field that e is. */
  predicate IsField(fields: seq<Field>, e: seq<byte>, k: nat) {
    OneField(fields, e) && Find(fields, ReadRecord(fields, e).rec.tag) == Some(k)
  }

  predicate AllOf(fields: seq<Field>, es: seq<seq<byte>>, k: nat) {
    forall j :: 0 <= j < |es| ==> IsField(fields, es[j], k)
  }

  ghost predicate NotBefore(fields: seq<Field>, e: seq<byte>, k: nat) { exists i :: k <= i < |fields| && IsField(fields, e, i) }

  /** e1 may come before e2. */
  ghost predicate MayPrecede(fields: seq<Field>, e1: seq<byte>, e2: seq<byte>) {
    forall a, b :: IsField(fields, e1, a) && IsField(fields, e2, b) ==> a <= b
  }

  /** Fields from k on, in the order of the table. */
  ghost predicate InTableOrder(fields: seq<Field>, es: seq<seq<byte>>, k: nat) {
    && (forall j :: 0 <= j < |es| ==> NotBefore(fields, es[j], k))
    && forall i, j :: 0 <= i < j < |es| ==> MayPrecede(fields, es[i], es[j])
  }

  lemma {:induction false} PrecedesLater(fields: seq<Field>, e1: seq<byte>, e2: seq<byte>, k: nat)
    requires k < |fields| && IsField(fields, e1, k)
    ensures NotBefore(fields, e1, k)
    ensures NotBefore(fields, e2, k + 1) ==> MayPrecede(fields, e1, e2)
    ensures IsField(fields, e2, k) ==> MayPrecede(fields, e1, e2)
  {
    if NotBefore(fields, e2, k + 1) { var i :| k + 1 <= i < |fields| && IsField(fields, e2, i); }
  }

  lemma {:induction false} TableOrder(fields: seq<Field>, k: nat, first: seq<seq<byte>>, rest: seq<seq<byte>>)
    requires k < |fields| && AllOf(fields, first, k) && InTableOrder(fields, rest, k + 1)
    ensures InTableOrder(fields, first + rest, k)
  {
    hide IsField, MayPrecede, NotBefore;
    var es := first + rest;
    forall i | 0 <= i < |es|
      ensures NotBefore(fields, es[i], k)
    {
      if i < |first| {
        PrecedesLater(fields, es[i], es[i], k);
      } else {
        assert es[i] == rest[i - |first|];
        Later(fields, es[i], k);
      }
    }
    forall i, j | 0 <= i < j < |es|
      ensures MayPrecede(fields, es[i], es[j])
    {
      if j >= |first| { assert es[j] == rest[j - |first|]; }
      if i < |first| { PrecedesLater(fields, es[i], es[j], k); } else { assert es[i] == rest[i - |first|]; }
    }
  }

  lemma {:induction false} Later(fields: seq<Field>, e: seq<byte>, k: nat)
    requires NotBefore(fields, e, k + 1)
    ensures NotBefore(fields, e, k)
  {
  }

  predicate AllTyped(fields: seq<Field>, es: seq<seq<byte>>) {
    forall k :: 0 <= k < |es| ==> TypedField(fields, es[k])
  }

  lemma {:induction false} TypedNumber(fields: seq<Field>, k: nat, r: Record)
    requires k < |fields| && Find(fields, r.tag) == Some(k)
    requires if fields[k].htype.Repeated? && fields[k].Packable() then r.wt == WT_STRING else r.wt == FieldWireType(fields[k].ltype)
    ensures Typed(fields, r)
  {
  }

  /** A keyed value is one field. */
  lemma {:induction false} KeyedIsField(fields: seq<Field>, k: nat, v: Value) returns (r: Record)
    requires k < |fields| && WellFormed(fields) && NormalValue(fields[k], v) && Readable(fields[k], v)
    ensures EncodeKeyed(fields[k], v).Some?
    ensures var e := EncodeKeyed(fields[k], v).value; OneField(fields, e) && ReadRecord(fields, e).rec == r
    ensures Find(fields, r.tag) == Some(k) && !Packed(fields[k], r.wt) && r.wt == FieldWireType(fields[k].ltype)
    ensures DecodeValue(fields[k], DefaultValue(fields[k]), r.raw) == Some(ValueArriving(fields[k], v))
  {
    r := KeyedRead(fields, k, v, []);
    var e := EncodeKeyed(fields[k], v).value;
    assert e + [] == e;
    hide ReadRecord, EncodeKeyed, DecodeValue, WellFormed, NormalValue;
  }

  /** The elements of an unpacked array are fields, and appending them is folding them in. */
  lemma {:induction false} UnpackedFields(fields: seq<Field>, k: nat, prefix: seq<Value>, items: seq<Value>)
    returns (es: seq<seq<byte>>)
    requires k < |fields| && WellFormed(fields) && fields[k].htype.Repeated? && NormalItems(fields[k], items)
    requires forall i :: 0 <= i < |items| ==> Readable(fields[k], items[i])
    requires |prefix| + |items| <= fields[k].arraySize && EncodeUnpacked(fields[k], items).Some? && !fields[k].Packable()
    ensures AllFields(fields, es) && AllTyped(fields, es) && AllOf(fields, es, k)
    ensures |es| == |items| && Concat(es) == EncodeUnpacked(fields[k], items).value
    ensures var rs := Records(fields, es);
            && (forall i :: 0 <= i < |rs| ==> Find(fields, rs[i].tag) == Some(k))
            && FoldSlot(fields, Array(prefix), rs) == Some(Array(prefix + ItemsArriving(fields[k], items)))
    decreases |items|
  {
    hide OneField, Readable, NormalValue, WellFormed, EncodeKeyed, DecodeValue, Lex, ValueArriving, Typed;
    if items == [] {
      es := [];
      assert prefix + ItemsArriving(fields[k], items) == prefix;
      return;
    }
    var r := KeyedIsField(fields, k, items[0]);
    var v := ValueArriving(fields[k], items[0]);
    var rest := UnpackedFields(fields, k, prefix + [v], items[1..]);
    var e := EncodeKeyed(fields[k], items[0]).value;
    es := [e] + rest;
    assert es[1..] == rest && prefix + [v] + ItemsArriving(fields[k], items[1..]) == prefix + ItemsArriving(fields[k], items);
    DecodeItem(fields[k], prefix, v, r.wt, r.raw);
    TypedNumber(fields, k, r);
    assert Records(fields, es) == [r] + Records(fields, rest);
    hide DecodeSlot, EncodeUnpacked, Concat, Records;
    FoldFirst(fields, Array(prefix), r, Records(fields, rest));
  }

  /** A packed array is one field. */
  lemma {:induction false} PackedIsField(fields: seq<Field>, k: nat, items: seq<Value>) returns (es: seq<seq<byte>>)
    requires k < |fields| && WellFormed(fields) && fields[k].htype.Repeated? && fields[k].Packable()
    requires NormalItems(fields[k], items) && items != [] && |items| <= fields[k].arraySize
    requires EncodeItems(fields[k], items).Some? ==> |EncodeItems(fields[k], items).value| < TWO_32
    ensures EncodeArray(fields[k], items).Some? && Concat(es) == EncodeArray(fields[k], items).value
    ensures AllFields(fields, es) && AllTyped(fields, es) && AllOf(fields, es, k)
    ensures var rs := Records(fields, es);
            && |rs| == 1 && Find(fields, rs[0].tag) == Some(k) && FoldSlot(fields, Array([]), rs) == Some(Array(items))
  {
    var f := fields[k];
    assert FieldOk(f);
    PackedRead(f, [], items);
    var b := EncodeItems(f, items).value;
    var e := EncodeArray(f, items).value;
    hide EncodeItems, DecodePacked, WellFormed, NormalItems, Lex, Varint.Encode;
    DelimitRead(b, []);
    KeyRead(fields, k, WT_STRING, Delimit(b), Octets(b), []);
    DecodeRun(f, items, b);
    var r := Record(f.tag, WT_STRING, Octets(b));
    assert Key(f.tag, WT_STRING) + Delimit(b) + [] == e;
    hide ReadRecord, DecodeSlot, Delimit, Key, EncodeArray, Typed;
    es := [e];
    assert Find(fields, f.tag) == Some(k);
    TypedNumber(fields, k, r);
    assert e + [] == e && es[1..] == [] && Concat([]) == [];
    assert Records(fields, es[1..]) == [] && [r] + [] == [r];
    FoldFirst(fields, Array([]), r, []);
  }

  /** An array field, packed or not. */
  lemma {:induction false} ArrayFields(fields: seq<Field>, k: nat, items: seq<Value>) returns (es: seq<seq<byte>>)
    requires k < |fields| && WellFormed(fields) && fields[k].htype.Repeated? && NormalItems(fields[k], items)
    requires |items| <= fields[k].arraySize && SlotReadable(fields[k], Array(items))
    ensures EncodeArray(fields[k], items).Some? && Concat(es) == EncodeArray(fields[k], items).value
    ensures AllFields(fields, es) && AllTyped(fields, es) && AllOf(fields, es, k)
    ensures var rs := Records(fields, es);
            && (items != [] ==> rs != []) && (forall i :: 0 <= i < |rs| ==> Find(fields, rs[i].tag) == Some(k))
            && FoldSlot(fields, Array([]), rs) == Some(Array(ItemsArriving(fields[k], items)))
  {
    assert FieldOk(fields[k]);
    hide OneField, Readable, NormalValue, WellFormed, Lex, TypedField, IsField;
    assert fields[k].Packable() ==> ItemsArriving(fields[k], items) == items;
    if items == [] {
      es := [];
    } else if fields[k].Packable() {
      es := PackedIsField(fields, k, items);
    } else {
      EncodeItemsTotal(fields[k], items);
      es := UnpackedFields(fields, k, [], items);
      assert [] + ItemsArriving(fields[k], items) == ItemsArriving(fields[k], items);
    }
  }

  /** One field of a message. */
  lemma {:induction false} FieldFields(fields: seq<Field>, m: seq<Slot>, k: nat) returns (es: seq<seq<byte>>)
    requires k < |fields| && WellFormed(fields) && Normal(fields, m) && MessageReadable(fields, m)
    ensures var e := EncodeSlot(fields[k], m[Home(fields, k)]);
            e.Some? && AllFields(fields, es) && AllTyped(fields, es) && AllOf(fields, es, k) && Concat(es) == e.value
  {
    var f, slot := fields[k], m[Home(fields, k)];
    EncodeFieldTotal(fields, m, k);
    HomeKind(fields, k);
    SlotKinds(fields, m, k);
    assert NormalSlot(f, m[k]) && FieldOk(f) && SlotReadable(f, slot);
    if f.htype.OneOf? { SelectedField(fields, m, k); }
    hide OneField, NormalValue, WellFormed, Normal, Lex, EncodeKeyed, IsZeroValue, EncodeArray, Typed;
    if f.htype.Repeated? {
      es := ArrayFields(fields, k, slot.items);
    } else if EncodeSlot(f, slot) == Some([]) {
      es := [];
    } else {
      var r := KeyedIsField(fields, k, slot.v);
      TypedNumber(fields, k, r);
      es := [EncodeKeyed(f, slot.v).value];
      assert es[1..] == [] && es[0] + [] == es[0];
    }
  }

  lemma {:induction false} ConcatAppend(es: seq<seq<byte>>, fs: seq<seq<byte>>)
    ensures Concat(es + fs) == Concat(es) + Concat(fs)
    decreases |es|
  {
    if es == [] {
      assert es + fs == fs;
    } else {
      assert (es + fs)[1..] == es[1..] + fs;
      ConcatAppend(es[1..], fs);
    }
  }

  lemma {:induction false} NoFields(fields: seq<Field>, k: nat)
    ensures InTableOrder(fields, [], k)
  {
  }

  /** The encoder writes whole fields, in the order of the table. */
  lemma {:induction false} MessageFields(fields: seq<Field>, m: seq<Slot>, k: nat) returns (es: seq<seq<byte>>)
    requires |m| == |fields| && k <= |fields| && WellFormed(fields) && Normal(fields, m) && MessageReadable(fields, m)
    ensures EncodeFrom(fields, m, k).Some? && Concat(es) == EncodeFrom(fields, m, k).value
    ensures AllFields(fields, es) && AllTyped(fields, es) && InTableOrder(fields, es, k)
    decreases |fields| - k
  {
    hide OneField, WellFormed, Normal, MessageReadable, EncodeSlot, Records, TypedField, IsField, InTableOrder;
    if k == |fields| {
      es := [];
      NoFields(fields, k);
    } else {
      var first := FieldFields(fields, m, k);
      var rest := MessageFields(fields, m, k + 1);
      es := first + rest;
      TableOrder(fields, k, first, rest);
      ConcatAppend(first, rest);
    }
  }

  /** For every well-formed descriptor some message of which can be sent, with no array of size zero among
      the fixed-count ones: the order of fields is irrelevant to the decoder exactly when the descriptor
      has at most one fixed-count array. */
  lemma {:induction false} OrderDecided(fields: seq<Field>, m: seq<Slot>)
    requires WellFormed(fields) && Normal(fields, m) && MessageReadable(fields, m)
    requires forall i :: 0 <= i < |fields| && fields[i].FixedCount() ==> fields[i].arraySize > 0
    ensures OrderFree(fields) <==> OneFixedCount(fields)
  {
    var es := MessageFields(fields, m, 0);
    MessageRoundTrip(fields, m);
    assert |Defaults(fields)| == |fields| && DecodeInto(fields, Defaults(fields), Concat(es)).Some?;
    assert Decodable(fields);
    forall i | 0 <= i < |fields| && fields[i].FixedCount()
      ensures Fillable(fields, i)
    {
      FixedCountFillable(fields, m, i);
    }
    hide Decodable, Fillable, OrderFree, WellFormed, Normal;
    OrderFreeExactly(fields);
  }

  lemma {:induction false} FixedCountFillable(fields: seq<Field>, m: seq<Slot>, i: nat)
    requires WellFormed(fields) && Normal(fields, m) && MessageReadable(fields, m)
    requires i < |fields| && fields[i].FixedCount() && fields[i].arraySize > 0
    ensures Fillable(fields, i)
  {
    HomeKind(fields, i);
    SlotKinds(fields, m, i);
    assert NormalSlot(fields[i], m[i]) && SlotReadable(fields[i], m[Home(fields, i)]);
    hide WellFormed, Normal, OneField, FoldSlot;
    var es := ArrayFields(fields, i, m[i].items);
    assert FillingFields(fields, i, es);
  }
}
