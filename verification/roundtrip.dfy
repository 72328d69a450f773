/** Decoding what the encoder wrote gives the message back. */
module RoundTrip {
  import opened Bits
  import opened Descriptor
  import opened Wire
  import opened Encoder
  import opened Decoder
  import Varint

  // ----- descriptors and messages in scope

  const TAG_LIMIT: int := 0x2000_0000

  predicate FieldOk(f: Field)
    decreases f
  {
    && 1 <= f.tag < TAG_LIMIT
    && (f.Singular() ==> f.initial.None?)
    && CountsKnown(f)
    && (f.ltype.SubMessage? ==> WellFormed(f.ltype.sub))
  }

  predicate WellFormed(fields: seq<Field>)
    decreases fields
  {
    DistinctTags(fields) && forall i :: 0 <= i < |fields| ==> FieldOk(fields[i])
  }

  /** A value the member of f can hold, with strings NUL-terminated. */
  predicate NormalValue(f: Field, v: Value)
    decreases f, 0
  {
    match f.ltype
    case SubMessage(sub) => v.Msg? && Normal(sub, v.slots)
    case BytesType => v.Blob? && |v.b| + BYTES_HEADER <= f.dataSize
    case StringType => v.Blob? && 0 !in v.b && |v.b| < f.dataSize
    case FixedLengthBytes => v.Blob? && |v.b| == f.dataSize
    case _ => v.Num? && Holds(f, v.n)
  }

  predicate NormalSlot(f: Field, slot: Slot)
    decreases f, 1
  {
    match (f.htype, slot)
    case (Required, Single(v)) => NormalValue(f, v)
    case (Optional, Flagged(has, v)) =>
      f.sizeOffset != 0 && (if has then NormalValue(f, v) else v == DefaultValue(f))
    case (Optional, Single(v)) => f.sizeOffset == 0 && NormalValue(f, v)
    case (Repeated, Array(items)) =>
      && |items| <= f.arraySize
      && (f.FixedCount() ==> |items| == f.arraySize)
      && forall i :: 0 <= i < |items| ==> NormalValue(f, items[i])
    case (OneOf, Union(_, _)) => true
    case _ => false
  }

  /** Union i is empty or holds a value of the member its which_ tag names. */
  predicate NormalUnion(fields: seq<Field>, slots: seq<Slot>, i: nat)
    requires i < |fields| == |slots| && slots[i].Union?
    decreases fields, 0
  {
    slots[i] == NOTHING ||
    exists j :: 0 <= j < |fields| && Home(fields, j) == i && Selects(fields[j], slots[i])
  }

  /** The which_ tag names f, and the union holds a value of f. */
  predicate Selects(f: Field, slot: Slot)
    decreases f, 2
  {
    f.htype.OneOf? && slot.Union? && slot.which == f.tag && NormalValue(f, slot.v)
  }

  /** Messages in normal form: absent optionals hold their default, empty unions nothing. */
  predicate Normal(fields: seq<Field>, slots: seq<Slot>)
    decreases fields, 1
  {
    && |slots| == |fields|
    && (forall i :: 0 <= i < |fields| ==> NormalSlot(fields[i], slots[i]))
    && (forall i :: 0 <= i < |fields| && slots[i].Union? ==> NormalUnion(fields, slots, i))
  }

  // ----- what of a message arrives

  /** The value as it comes out again. */
  function ValueArriving(f: Field, v: Value): Value
    decreases f, 0
  {
    if f.ltype.SubMessage? && v.Msg? && |v.slots| == |f.ltype.sub| then Msg(Arriving(f.ltype.sub, v.slots)) else v
  }

  function ItemsArriving(f: Field, items: seq<Value>): (r: seq<Value>)
    ensures |r| == |items|
    decreases f, 1
  {
    seq(|items|, i requires 0 <= i < |items| => ValueArriving(f, items[i]))
  }

  /** Slot j as it comes out again: a proto3 singular member that passes the zero test is not sent. */
  function SlotArriving(fields: seq<Field>, m: seq<Slot>, j: nat): Slot
    requires j < |fields| == |m|
    decreases fields, 0
  {
    var f := fields[j];
    match m[j]
    case Array(items) => Array(ItemsArriving(f, items))
    case Flagged(has, v) => Flagged(has, if has then ValueArriving(f, v) else v)
    case Single(v) => Single(if f.Singular() && IsZeroValue(f, v) then DefaultValue(f) else ValueArriving(f, v))
    case Union(which, v) =>
      match Find(fields, which) case None => m[j] case Some(i) => Union(which, ValueArriving(fields[i], v))
  }

  function Arriving(fields: seq<Field>, m: seq<Slot>): (r: seq<Slot>)
    requires |m| == |fields|
    ensures |r| == |m|
    decreases fields, 1
  {
    seq(|m|, j requires 0 <= j < |m| => SlotArriving(fields, m, j))
  }

  /** A nonempty fixed-count array is reached through proto3 singular submessages alone. */
  predicate HoldsArray(f: Field)
    decreases f
  {
    (f.FixedCount() && f.arraySize > 0) ||
    (f.Singular() && f.ltype.SubMessage? && exists i :: 0 <= i < |f.ltype.sub| && HoldsArray(f.ltype.sub[i]))
  }

  /** At no level does a proto3 singular submessage that holds a fixed-count array pass the zero test: the
      arrays' first four bytes, all that test looks at, are not zero everywhere, or something else is
      there. */
  predicate Kept(fields: seq<Field>, m: seq<Slot>)
    decreases fields, 1
  {
    |m| == |fields| ==> forall j :: 0 <= j < |m| ==> KeptSlot(fields, m, j)
  }

  predicate KeptSlot(fields: seq<Field>, m: seq<Slot>, j: nat)
    requires j < |fields| == |m|
    decreases fields, 0
  {
    var f := fields[j];
    match m[j]
    case Array(items) => forall i :: 0 <= i < |items| ==> KeptValue(f, items[i])
    case Flagged(has, v) => has ==> KeptValue(f, v)
    case Single(v) => if f.Singular() && IsZeroValue(f, v) then !HoldsArray(f) else KeptValue(f, v)
    case Union(which, v) => match Find(fields, which) case None => true case Some(i) => KeptValue(fields[i], v)
  }

  predicate KeptValue(f: Field, v: Value)
    decreases f, 0
  {
    f.ltype.SubMessage? && v.Msg? ==> Kept(f.ltype.sub, v.slots)
  }

  // ----- scalars

  lemma {:induction false} SignExtend(n: int, size: nat)
    requires (size == 4 || size == 8) && -(Span(size) / 2) <= n && n < Span(size) / 2
    ensures ToSigned(ToUnsigned64(n), Span(size)) == n
  {
    if n < 0 {
      assert ToUnsigned64(n) == n + TWO_64;
      if size == 4 { assert (n + TWO_64) % TWO_32 == n + TWO_32; }
    }
  }

  lemma {:induction false} Clamp(n: int, size: nat)
    requires NumericSize(size) && -(Span(size) / 2) <= n && n < Span(size) / 2
    ensures ToSigned(n, Span(size)) == n
  {
    if n < 0 { assert n % Span(size) == n + Span(size); }
  }

  /** A number in range of its member is what its varint decodes to. */
  lemma {:induction false} NumberRoundTrip(f: Field, n: int)
    requires VarintField(f) && Holds(f, n)
    ensures 0 <= NumberWord(f, n) < TWO_64 && NumberFromVarint(f, NumberWord(f, n)) == Some(n)
  {
    if f.ltype.UVarintType? {
      assert n % Span(f.dataSize) == n;
    } else {
      Clamp(n, f.dataSize);
      SignExtend(n, if f.dataSize == 8 then 8 else 4);
      ZigZagRoundTrip(n);
      hide ToSigned, ToUnsigned64, ZigZag, UnZigZag;
    }
  }

  /** The varint a number is written as. */
  function NumberWord(f: Field, n: int): int {
    if f.ltype.VarintType? then ToUnsigned64(n) else if f.ltype.UVarintType? then n else ZigZag(n)
  }

  predicate VarintField(f: Field) { f.ltype.VarintType? || f.ltype.UVarintType? || f.ltype.SVarintType? }

  lemma {:induction false} VarintRead(f: Field, v: Value, t: seq<byte>) returns (raw: Raw)
    requires VarintField(f) && NormalValue(f, v)
    ensures EncodeScalar(f, v).Some? && |EncodeScalar(f, v).value| >= 1
    ensures ReadRaw(Word64, EncodeScalar(f, v).value + t) == Good(raw, |EncodeScalar(f, v).value|)
    ensures DecodeNumber(f, raw) == Some(v)
  {
    NumberRoundTrip(f, v.n);
    Varint.RoundTrip64(NumberWord(f, v.n), t);
    raw := Word(NumberWord(f, v.n));
    hide Holds, ZigZag, ToUnsigned64, NumberFromVarint, Varint.Encode, Varint.Read64;
  }

  lemma {:induction false} BlobRead(f: Field, v: Value, t: seq<byte>) returns (raw: Raw)
    requires f.ltype.BytesType? || f.ltype.StringType? || f.ltype.FixedLengthBytes?
    requires NormalValue(f, v)
    ensures EncodeScalar(f, v).Some?
    ensures ReadRaw(Delimited, EncodeScalar(f, v).value + t) == Good(raw, |EncodeScalar(f, v).value|)
    ensures raw.Octets? && DecodeBlob(f, raw.b) == Some(v)
  {
    hide Delimit, ReadDelimited;
    DelimitRead(v.b, t);
    raw := Octets(v.b);
  }

  /** Any number or byte string reads back, whatever follows it. */
  lemma {:induction false} ScalarRead(f: Field, v: Value, t: seq<byte>) returns (raw: Raw)
    requires !f.ltype.SubMessage? && NormalValue(f, v)
    ensures EncodeScalar(f, v).Some?
    ensures ReadRaw(NaturalShape(f.ltype), EncodeScalar(f, v).value + t) == Good(raw, |EncodeScalar(f, v).value|)
    ensures DecodeValue(f, DefaultValue(f), raw) == Some(v)
    ensures f.Packable() ==> DecodeNumber(f, raw) == Some(v) && |EncodeScalar(f, v).value| >= 1
  {
    if VarintField(f) {
      raw := VarintRead(f, v, t);
    } else if f.ltype.Fixed32Type? {
      raw := FixedRead(v.n, 4, t);
    } else if f.ltype.Fixed64Type? {
      raw := FixedRead(v.n, 8, t);
    } else {
      raw := BlobRead(f, v, t);
    }
  }

  lemma {:induction false} FixedRead(n: nat, k: nat, t: seq<byte>) returns (raw: Raw)
    requires (k == 4 && n < TWO_32) || (k == 8 && n < TWO_64)
    ensures ReadRaw(Width(k), LittleEndian(n, k) + t) == Good(raw, k)
    ensures raw.Octets? && FromLittleEndian(raw.b) == n
  {
    Varint.Pow2_32();
    Varint.Pow2_64();
    LittleEndianRoundTrip(n, k);
    raw := Octets(LittleEndian(n, k));
    assert (LittleEndian(n, k) + t)[..k] == LittleEndian(n, k);
  }

  lemma {:induction false} DelimitRead(b: seq<byte>, t: seq<byte>)
    requires |b| < TWO_32
    ensures ReadDelimited(Delimit(b) + t) == Good(b, |Delimit(b)|)
  {
    hide Varint.Encode, Varint.Read32;
    Varint.RoundTrip32(|b|, b + t);
    var s := Delimit(b) + t;
    assert s == Varint.Encode(|b|) + (b + t);
    var n := |Varint.Encode(|b|)|;
    assert s[n..n + |b|] == b;
  }

  // ----- payloads the decoder can read

  /** A submessage's encoding is short enough for the 32-bit length the decoder reads. */
  predicate Readable(f: Field, v: Value) {
    f.ltype.SubMessage? && v.Msg? && Encode(f.ltype.sub, v.slots).Some? ==> |Encode(f.ltype.sub, v.slots).value| < TWO_32
  }

  /** Every length-delimited payload written for the field is. */
  predicate SlotReadable(f: Field, slot: Slot) {
    match slot
    case Array(items) =>
      if f.Packable() then EncodeItems(f, items).Some? ==> |EncodeItems(f, items).value| < TWO_32
      else forall i :: 0 <= i < |items| ==> Readable(f, items[i])
    case Single(v) => f.htype.Required? || !IsZeroValue(f, v) ==> Readable(f, v)
    case Flagged(has, v) => has ==> Readable(f, v)
    case Union(which, v) => which == f.tag ==> Readable(f, v)
  }

  predicate MessageReadable(fields: seq<Field>, m: seq<Slot>) {
    |m| == |fields| ==> forall k :: 0 <= k < |fields| ==> SlotReadable(fields[k], m[Home(fields, k)])
  }

  lemma {:induction false} DelimitLonger(b: seq<byte>)
    ensures |Delimit(b)| >= |b|
  {
  }

  lemma {:induction false} UnpackedReadable(f: Field, items: seq<Value>)
    requires EncodeUnpacked(f, items).Some? && |EncodeUnpacked(f, items).value| < TWO_32
    ensures forall i :: 0 <= i < |items| ==> Readable(f, items[i])
    decreases |items|
  {
    if items != [] {
      KeyedReadable(f, items[0]);
      UnpackedReadable(f, items[1..]);
    }
  }

  lemma {:induction false} KeyedReadable(f: Field, v: Value)
    requires EncodeKeyed(f, v).Some? && |EncodeKeyed(f, v).value| < TWO_32
    ensures Readable(f, v)
  {
    if f.ltype.SubMessage? && v.Msg? && Encode(f.ltype.sub, v.slots).Some? {
      DelimitLonger(Encode(f.ltype.sub, v.slots).value);
      hide Delimit, Encode;
    }
  }

  lemma {:induction false} ShortSlotReadable(f: Field, slot: Slot)
    requires EncodeSlot(f, slot).Some? && |EncodeSlot(f, slot).value| < TWO_32
    ensures SlotReadable(f, slot)
  {
    hide Readable, EncodeKeyed, IsZeroValue;
    match (f.htype, slot)
    case (Required, Single(v)) => KeyedReadable(f, v);
    case (Optional, Flagged(has, v)) => if has { KeyedReadable(f, v); }
    case (Optional, Single(v)) => if !IsZeroValue(f, v) { KeyedReadable(f, v); }
    case (Repeated, Array(items)) =>
      if items != [] {
        if f.Packable() { DelimitLonger(EncodeItems(f, items).value); } else { UnpackedReadable(f, items); }
      }
    case (OneOf, Union(which, v)) => if which == f.tag { KeyedReadable(f, v); }
  }

  lemma {:induction false} ShortFieldsReadable(fields: seq<Field>, m: seq<Slot>, k: nat)
    requires k <= |fields| == |m| && EncodeFrom(fields, m, k).Some? && |EncodeFrom(fields, m, k).value| < TWO_32
    ensures forall i :: k <= i < |fields| ==> SlotReadable(fields[i], m[Home(fields, i)])
    decreases |fields| - k
  {
    hide EncodeSlot, SlotReadable;
    if k < |fields| {
      ShortSlotReadable(fields[k], m[Home(fields, k)]);
      ShortFieldsReadable(fields, m, k + 1);
    }
  }

  /** An encoding below 4 GiB has no longer payload. */
  lemma {:induction false} ShortReadable(fields: seq<Field>, m: seq<Slot>)
    requires Encode(fields, m).Some? && |Encode(fields, m).value| < TWO_32
    ensures MessageReadable(fields, m)
  {
    ShortFieldsReadable(fields, m, 0);
  }

  // ----- one keyed value

  lemma {:induction false} KeyRead(fields: seq<Field>, i: nat, wt: nat, p: seq<byte>, raw: Raw, t: seq<byte>)
    requires i < |fields| && DistinctTags(fields) && 1 <= fields[i].tag < TAG_LIMIT && wt < 8
    requires ReadRaw(FieldShape(fields[i], wt), p + t) == Good(raw, |p|)
    ensures var k := Key(fields[i].tag, wt);
            ReadRecord(fields, k + p + t) == Item(Record(fields[i].tag, wt, raw), |k| + |p|)
  {
    var key := fields[i].tag * 8 + wt;
    var k := Key(fields[i].tag, wt);
    assert k + p + t == k + (p + t);
    Varint.RoundTrip32(key, p + t);
    assert (k + p + t)[|k|..] == p + t;
    assert key / 8 == fields[i].tag && key % 8 == wt;
    assert Find(fields, fields[i].tag) == Some(i);
  }

  lemma {:induction false} ValueRead(f: Field, v: Value, t: seq<byte>) returns (raw: Raw)
    requires FieldOk(f) && NormalValue(f, v)
    requires Readable(f, v)
    ensures EncodeValue(f, v).Some?
    ensures ReadRaw(NaturalShape(f.ltype), EncodeValue(f, v).value + t) == Good(raw, |EncodeValue(f, v).value|)
    ensures DecodeValue(f, DefaultValue(f), raw) == Some(ValueArriving(f, v))
    decreases f, 0
  {
    if f.ltype.SubMessage? {
      var sub := f.ltype.sub;
      EncodeTotal(sub, v.slots);
      ShortReadable(sub, v.slots);
      MessageRoundTrip(sub, v.slots);
      var b := Encode(sub, v.slots).value;
      DelimitRead(b, t);
      raw := Octets(b);
    } else {
      raw := ScalarRead(f, v, t);
    }
  }

  /** A keyed value at the front of the stream is one record for its field. */
  lemma {:induction false} KeyedRead(fields: seq<Field>, i: nat, v: Value, t: seq<byte>) returns (r: Record)
    requires i < |fields| && WellFormed(fields) && NormalValue(fields[i], v)
    requires Readable(fields[i], v)
    ensures EncodeKeyed(fields[i], v).Some?
    ensures var e := EncodeKeyed(fields[i], v).value;
            e != [] && ReadRecord(fields, e + t) == Item(r, |e|)
    ensures r.tag == fields[i].tag && r.wt == FieldWireType(fields[i].ltype) && Find(fields, r.tag) == Some(i)
    ensures !Packed(fields[i], r.wt)
    ensures DecodeValue(fields[i], DefaultValue(fields[i]), r.raw) == Some(ValueArriving(fields[i], v))
    decreases fields, 1
  {
    assert FieldOk(fields[i]);
    hide WellFormed, NormalValue, EncodeValue, ReadRecord, ReadRaw, DecodeValue, ValueArriving, Find;
    var f := fields[i];
    var wt := FieldWireType(f.ltype);
    TagFound(fields, i);
    var raw := ValueRead(f, v, t);
    KeyRead(fields, i, wt, EncodeValue(f, v).value, raw, t);
    r := Record(f.tag, wt, raw);
  }

  // ----- the struct half-way through

  /** Slot j has its final contents once fields 0..k are decoded. */
  predicate Settled(fields: seq<Field>, m: seq<Slot>, j: nat, k: nat)
    requires j < |fields| == |m| && k <= |fields|
  {
    if m[j].Union? then exists i :: 0 <= i < k && Home(fields, i) == j && Selects(fields[i], m[j])
    else j < k
  }

  function Mix(fields: seq<Field>, m: seq<Slot>, k: nat): (slots: seq<Slot>)
    requires |fields| == |m| && k <= |fields|
    ensures |slots| == |m|
  {
    seq(|m|, j requires 0 <= j < |m| => if Settled(fields, m, j, k) then SlotArriving(fields, m, j) else DefaultSlot(fields[j]))
  }

  /** The decoder's state after fields 0..k of m. */
  predicate Midway(fields: seq<Field>, m: seq<Slot>, k: nat, st: State)
    requires |fields| == |m| && k <= |fields|
  {
    && st.slots == Mix(fields, m, k)
    && (st.run.Some? ==> st.run.value < k && fields[st.run.value].FixedCount())
    && (forall i :: 0 <= i < k && fields[i].htype.Required? ==> i in st.seen)
  }

  /** A union's which_ tag names one field only. */
  lemma {:induction false} SelectedField(fields: seq<Field>, m: seq<Slot>, k: nat)
    requires k < |fields| && WellFormed(fields) && Normal(fields, m) && fields[k].htype.OneOf?
    ensures var slot := m[Home(fields, k)];
            slot.Union? && (slot.which == fields[k].tag <==> Selects(fields[k], slot))
  {
    var h := Home(fields, k);
    HomeKind(fields, k);
    assert NormalSlot(fields[h], m[h]) && FieldOk(fields[k]);
    if m[h].which == fields[k].tag {
      assert NormalUnion(fields, m, h);
      var j :| 0 <= j < |fields| && Home(fields, j) == h && Selects(fields[j], m[h]);
      assert j == k;
    }
  }

  lemma {:induction false} SlotKinds(fields: seq<Field>, m: seq<Slot>, j: nat)
    requires Normal(fields, m) && j < |m|
    ensures m[j].Union? == fields[j].htype.OneOf?
  {
    assert NormalSlot(fields[j], m[j]);
  }

  lemma {:induction false} SettledStep(fields: seq<Field>, m: seq<Slot>, k: nat, j: nat)
    requires k < |fields| && j < |fields| && Normal(fields, m)
    ensures var h := Home(fields, k);
            Settled(fields, m, j, k + 1) == (Settled(fields, m, j, k) ||
              (j == h && (fields[k].htype.OneOf? ==> Selects(fields[k], m[j]))))
  {
    HomeKind(fields, k);
    SlotKinds(fields, m, j);
    SlotKinds(fields, m, k);
    hide Normal, Selects, Home;
    if m[j].Union? {
      forall i | 0 <= i < k + 1 && Home(fields, i) == j && Selects(fields[i], m[j])
        ensures i == k || Settled(fields, m, j, k)
      {
      }
    }
  }

  /** Decoding field k settles exactly its own storage. */
  lemma {:induction false} MixStep(fields: seq<Field>, m: seq<Slot>, k: nat)
    requires k < |fields| && Normal(fields, m)
    ensures var h := Home(fields, k);
            if fields[k].htype.OneOf? && !Selects(fields[k], m[h]) then Mix(fields, m, k + 1) == Mix(fields, m, k)
            else Mix(fields, m, k + 1) == Mix(fields, m, k)[h := SlotArriving(fields, m, h)]
  {
    forall j | 0 <= j < |m|
      ensures var h := Home(fields, k);
              Settled(fields, m, j, k + 1) == (Settled(fields, m, j, k) ||
                (j == h && (fields[k].htype.OneOf? ==> Selects(fields[k], m[j]))))
    {
      SettledStep(fields, m, k, j);
    }
    hide Normal, Selects, Home, Settled, DefaultSlot, SlotArriving;
  }

  // ----- what the encoder leaves out is the default

  lemma {:induction false} ZeroIsDefault(f: Field, v: Value)
    requires FieldOk(f) && f.Singular() && NormalValue(f, v) && IsZeroValue(f, v)
    ensures v == DefaultValue(f) <==> !HoldsArray(f)
    decreases f, 0
  {
    match f.ltype
    case SubMessage(sub) => ZeroMessage(sub, v.slots);
    case _ =>
  }

  /** A submessage that passes the proto3 zero test is the default one exactly when no fixed-count array
      can be in it. */
  lemma {:induction false} ZeroMessage(sub: seq<Field>, slots: seq<Slot>)
    requires WellFormed(sub) && Normal(sub, slots)
    requires forall i :: 0 <= i < |sub| ==> IsZero(sub[i], slots[Home(sub, i)])
    ensures slots == Defaults(sub) <==> forall i :: 0 <= i < |sub| ==> !HoldsArray(sub[i])
    decreases sub, 1
  {
    forall i | 0 <= i < |sub|
      ensures slots[i] == DefaultSlot(sub[i]) <==> !HoldsArray(sub[i])
    {
      ZeroSlot(sub, slots, i);
    }
    hide HoldsArray;
    if forall i :: 0 <= i < |sub| ==> !HoldsArray(sub[i]) {
      assert slots == Defaults(sub);
    } else {
      var i :| 0 <= i < |sub| && HoldsArray(sub[i]);
      assert slots[i] != Defaults(sub)[i];
    }
  }

  lemma {:induction false} ZeroSlot(sub: seq<Field>, slots: seq<Slot>, i: nat)
    requires WellFormed(sub) && Normal(sub, slots) && i < |sub| && IsZero(sub[i], slots[Home(sub, i)])
    ensures slots[i] == DefaultSlot(sub[i]) <==> !HoldsArray(sub[i])
    decreases sub, 0
  {
    assert NormalSlot(sub[i], slots[i]) && FieldOk(sub[i]);
    HomeKind(sub, i);
    HomeFixed(sub, i);
    if sub[i].htype.OneOf? {
      EmptyUnion(sub, slots, i);
    } else if sub[i].Singular() {
      ZeroIsDefault(sub[i], slots[i].v);
    }
  }

  lemma {:induction false} EmptyUnion(fields: seq<Field>, slots: seq<Slot>, i: nat)
    requires WellFormed(fields) && Normal(fields, slots) && i < |fields| && fields[i].htype.OneOf?
    requires var slot := slots[Home(fields, i)]; slot.Union? ==> slot.which == 0
    ensures slots[i] == NOTHING
  {
    SlotKinds(fields, slots, i);
    HomeKind(fields, i);
    SlotKinds(fields, slots, Home(fields, i));
    assert NormalUnion(fields, slots, i);
    assert forall j :: 0 <= j < |fields| ==> fields[j].tag >= 1 by {
      assert forall j :: 0 <= j < |fields| ==> FieldOk(fields[j]);
    }
    if slots[i] != NOTHING {
      var j :| 0 <= j < |fields| && Home(fields, j) == i && Selects(fields[j], slots[i]);
      HomeFixed(fields, j);
      assert false;
    }
  }

  /** A field that is left out: its storage is already settled. */
  lemma {:induction false} AbsentField(fields: seq<Field>, m: seq<Slot>, k: nat, st: State)
    requires k < |fields| && Normal(fields, m) && Midway(fields, m, k, st) && !fields[k].htype.Required?
    requires if fields[k].htype.OneOf? then !Selects(fields[k], m[Home(fields, k)])
             else SlotArriving(fields, m, k) == DefaultSlot(fields[k])
    ensures Midway(fields, m, k + 1, st)
  {
    MixStep(fields, m, k);
    HomeKind(fields, k);
    SlotKinds(fields, m, k);
    hide Normal, Selects, Home, DefaultSlot, SlotArriving;
    if !fields[k].htype.OneOf? {
      assert !Settled(fields, m, k, k);
      assert Mix(fields, m, k)[k := SlotArriving(fields, m, k)] == Mix(fields, m, k);
    }
  }

  // ----- one field

  /** m's storage for field k is v, present, in the form its rule prescribes. */
  predicate Presents(f: Field, slot: Slot, v: Value) {
    match f.htype
    case Required => slot == Single(v)
    case Optional => slot == if f.sizeOffset != 0 then Flagged(true, v) else Single(v)
    case Repeated => false
    case OneOf => slot == Union(f.tag, v)
  }

  lemma {:induction false} DecodePresent(f: Field, start: Slot, slot: Slot, v: Value, wt: nat, raw: Raw)
    requires Presents(f, slot, v)
    requires start == if f.htype.OneOf? then NOTHING else DefaultSlot(f)
    requires DecodeValue(f, DefaultValue(f), raw) == Some(v)
    ensures DecodeSlot(f, start, wt, raw) == Some(slot)
  {
    hide DecodeValue, DefaultValue;
  }

  lemma {:induction false} PresentNormal(fields: seq<Field>, m: seq<Slot>, k: nat, v: Value)
    requires k < |fields| && WellFormed(fields) && Normal(fields, m) && Presents(fields[k], m[Home(fields, k)], v)
    ensures NormalValue(fields[k], v)
    ensures fields[k].htype.OneOf? ==> Selects(fields[k], m[Home(fields, k)])
    ensures !Settled(fields, m, Home(fields, k), k)
  {
    HomeKind(fields, k);
    SlotKinds(fields, m, Home(fields, k));
    assert NormalSlot(fields[k], m[k]) && FieldOk(fields[k]);
    if fields[k].htype.OneOf? { SelectedField(fields, m, k); }
  }

  lemma {:induction false} PresentArrives(fields: seq<Field>, m: seq<Slot>, k: nat, v: Value)
    requires k < |fields| == |m| && WellFormed(fields) && Presents(fields[k], m[Home(fields, k)], v)
    requires !(fields[k].Singular() && IsZeroValue(fields[k], v))
    ensures Presents(fields[k], SlotArriving(fields, m, Home(fields, k)), ValueArriving(fields[k], v))
  {
    hide ValueArriving, IsZeroValue;
    HomeKind(fields, k);
    TagFound(fields, k);
    hide WellFormed, Find;
  }

  /** A field written as one keyed value. */
  lemma {:induction false} SingleField(fields: seq<Field>, m: seq<Slot>, k: nat, st: State, v: Value, t: seq<byte>)
    returns (st': State)
    requires k < |fields| && WellFormed(fields) && Normal(fields, m) && Midway(fields, m, k, st)
    requires Presents(fields[k], m[Home(fields, k)], v)
    requires Readable(fields[k], v) && !(fields[k].Singular() && IsZeroValue(fields[k], v))
    ensures EncodeKeyed(fields[k], v).Some?
    ensures Run(fields, st, EncodeKeyed(fields[k], v).value + t) == Run(fields, st', t)
    ensures Midway(fields, m, k + 1, st')
    decreases fields, 2
  {
    var f, h := fields[k], Home(fields, k);
    assert |m| == |fields| && h < |m| && !f.FixedCount();
    PresentNormal(fields, m, k, v);
    PresentArrives(fields, m, k, v);
    var r := KeyedRead(fields, k, v, t);
    hide Normal, WellFormed, NormalValue, Selects, Home, EncodeKeyed, EncodeValue, Run, ApplyRecord, DecodeSlot,
         DecodeValue, DefaultValue, Lex, Presents;
    var e := EncodeKeyed(f, v).value;
    assert (e + t)[|e|..] == t;
    RunStep(fields, st, e + t);
    HomeKind(fields, k);
    assert st.slots[h] == DefaultSlot(fields[h]);
    var slot := SlotArriving(fields, m, h);
    DecodePresent(f, st.slots[h], slot, ValueArriving(f, v), r.wt, r.raw);
    MixStep(fields, m, k);
    st' := st.(slots := st.slots[h := slot], seen := st.seen + {k});
    ApplyKnown(fields, st, r, k, st, slot);
  }

  // ----- arrays

  predicate NormalItems(f: Field, items: seq<Value>) {
    forall i :: 0 <= i < |items| ==> NormalValue(f, items[i])
  }

  /** A packed run decodes to its elements, appended to what was there. */
  lemma {:induction false} PackedRead(f: Field, prefix: seq<Value>, items: seq<Value>)
    requires f.Packable() && NormalItems(f, items)
    requires |prefix| + |items| <= f.arraySize
    ensures EncodeItems(f, items).Some?
    ensures DecodePacked(f, prefix, EncodeItems(f, items).value) == Some(prefix + items)
    decreases |items|
  {
    hide EncodeScalar, DecodeNumber, DecodeValue, NormalValue, ReadRaw, NaturalShape;
    if items == [] {
      assert prefix + items == prefix;
      return;
    }
    var rest := EncodeItems(f, items[1..]);
    var e := EncodeScalar(f, items[0]);
    assert EncodeItems(f, items) == Join(e, rest);
    PackedRead(f, prefix + [items[0]], items[1..]);
    var raw := ScalarRead(f, items[0], rest.value);
    hide EncodeItems, DecodePacked;
    var b := e.value + rest.value;
    assert b[|e.value|..] == rest.value;
    PackedStep(f, prefix, b);
    assert prefix + [items[0]] + items[1..] == prefix + items;
  }

  /** State st', entered for array field k, holds prefix in it. */
  predicate Filling(fields: seq<Field>, st: State, k: nat, st': State, prefix: seq<Value>)
    requires k < |fields|
  {
    && EnterField(fields, st, k) == Some(st')
    && k < |st'.slots| && st'.slots[k] == Array(prefix)
  }

  lemma {:induction false} DecodeItem(f: Field, prefix: seq<Value>, v: Value, wt: nat, raw: Raw)
    requires f.htype.Repeated? && |prefix| < f.arraySize && !Packed(f, wt)
    requires DecodeValue(f, DefaultValue(f), raw) == Some(v)
    ensures DecodeSlot(f, Array(prefix), wt, raw) == Some(Array(prefix + [v]))
  {
  }

  /** One keyed element is appended to its array. */
  lemma {:induction false} ItemRead(fields: seq<Field>, k: nat, st: State, st1: State, prefix: seq<Value>, v: Value,
                                    t: seq<byte>)
    returns (st2: State)
    requires k < |fields| && WellFormed(fields) && fields[k].htype.Repeated? && NormalValue(fields[k], v)
    requires Filling(fields, st, k, st1, prefix) && |prefix| < fields[k].arraySize
    requires Readable(fields[k], v)
    ensures EncodeKeyed(fields[k], v).Some?
    ensures Run(fields, st, EncodeKeyed(fields[k], v).value + t) == Run(fields, st2, t)
    ensures st2 == State(st1.slots[k := Array(prefix + [ValueArriving(fields[k], v)])], st1.run, st1.seen + {k})
    ensures Filling(fields, st2, k, st2, prefix + [ValueArriving(fields[k], v)])
    decreases fields, 2
  {
    var f := fields[k];
    var r := KeyedRead(fields, k, v, t);
    var e := EncodeKeyed(f, v).value;
    assert (e + t)[|e|..] == t;
    RunStep(fields, st, e + t);
    HomeKind(fields, k);
    var w := ValueArriving(f, v);
    DecodeItem(f, prefix, w, r.wt, r.raw);
    st2 := State(st1.slots[k := Array(prefix + [w])], st1.run, st1.seen + {k});
    ApplyKnown(fields, st, r, k, st1, Array(prefix + [w]));
    hide ValueArriving, DecodeSlot, WellFormed, Lex, EncodeKeyed, Home, Run, NormalValue, ApplyRecord;
  }

  /** Unpacked elements decode one by one. */
  lemma {:induction false} UnpackedRead(fields: seq<Field>, k: nat, st: State, st1: State,
                                        prefix: seq<Value>, items: seq<Value>, t: seq<byte>)
    returns (st': State)
    requires k < |fields| && WellFormed(fields) && fields[k].htype.Repeated? && NormalItems(fields[k], items)
    requires Filling(fields, st, k, st1, prefix) && items != []
    requires |prefix| + |items| <= fields[k].arraySize
    requires EncodeUnpacked(fields[k], items).Some?
    requires forall i :: 0 <= i < |items| ==> Readable(fields[k], items[i])
    ensures Run(fields, st, EncodeUnpacked(fields[k], items).value + t) == Run(fields, st', t)
    ensures st' == State(st1.slots[k := Array(prefix + ItemsArriving(fields[k], items))], st1.run, st1.seen + {k})
    decreases fields, 3, |items|
  {
    hide NormalValue, WellFormed, Run, EncodeKeyed, ValueArriving;
    var f := fields[k];
    var rest := EncodeUnpacked(f, items[1..]).value;
    var e := EncodeKeyed(f, items[0]).value;
    assert EncodeUnpacked(f, items).value + t == e + (rest + t);
    var st2 := ItemRead(fields, k, st, st1, prefix, items[0], rest + t);
    assert k < |st1.slots|;
    assert NormalItems(f, items[1..]);
    var all := ItemsArriving(f, items);
    if |items| == 1 {
      assert rest + t == t;
      assert all == [ValueArriving(f, items[0])];
      st' := st2;
    } else {
      var p := prefix + [ValueArriving(f, items[0])];
      st' := UnpackedRead(fields, k, st2, st2, p, items[1..], t);
      assert prefix + all == p + ItemsArriving(f, items[1..]);
      hide *;
      assert st2.slots[k := Array(prefix + all)] == st1.slots[k := Array(prefix + all)];
      assert st1.seen + {k} + {k} == st1.seen + {k};
    }
  }

  /** Entering array field k from a midway state finds it empty. */
  lemma {:induction false} EnterArray(fields: seq<Field>, m: seq<Slot>, k: nat, st: State) returns (st1: State)
    requires k < |fields| && Normal(fields, m) && Midway(fields, m, k, st) && fields[k].htype.Repeated?
    ensures Filling(fields, st, k, st1, [])
    ensures st1.slots == st.slots && st1.seen == st.seen
    ensures st1.run == if fields[k].FixedCount() then Some(k) else st.run
  {
    SlotKinds(fields, m, k);
    assert st.slots[k] == Array([]);
    st1 := if fields[k].FixedCount() then st.(run := Some(k)) else st;
    if st.run.Some? {
      var j := st.run.value;
      SlotKinds(fields, m, j);
      assert NormalSlot(fields[j], m[j]);
    }
    assert st.slots[k := Array([])] == st.slots;
  }

  /** A packed array is one record. */
  lemma {:induction false} PackedField(fields: seq<Field>, k: nat, st: State, st1: State, items: seq<Value>, t: seq<byte>)
    returns (st': State)
    requires k < |fields| && WellFormed(fields) && fields[k].htype.Repeated? && fields[k].Packable()
    requires NormalItems(fields[k], items) && items != [] && |items| <= fields[k].arraySize
    requires Filling(fields, st, k, st1, [])
    requires EncodeItems(fields[k], items).Some? ==> |EncodeItems(fields[k], items).value| < TWO_32
    ensures EncodeArray(fields[k], items).Some?
    ensures Run(fields, st, EncodeArray(fields[k], items).value + t) == Run(fields, st', t)
    ensures st' == State(st1.slots[k := Array(items)], st1.run, st1.seen + {k})
  {
    var f := fields[k];
    assert FieldOk(f);
    PackedRead(f, [], items);
    var b := EncodeItems(f, items).value;
    var e := EncodeArray(f, items).value;
    DelimitRead(b, t);
    KeyRead(fields, k, WT_STRING, Delimit(b), Octets(b), t);
    assert e + t == Key(f.tag, WT_STRING) + Delimit(b) + t;
    assert (e + t)[|e|..] == t;
    RunStep(fields, st, e + t);
    HomeKind(fields, k);
    var r := Record(f.tag, WT_STRING, Octets(b));
    DecodeRun(f, items, b);
    st' := State(st1.slots[k := Array(items)], st1.run, st1.seen + {k});
    ApplyKnown(fields, st, r, k, st1, Array(items));
    hide DecodeSlot, WellFormed, Lex, EncodeArray, Home, Run, NormalValue, Key, Delimit, ApplyRecord;
  }

  lemma {:induction false} DecodeRun(f: Field, items: seq<Value>, b: seq<byte>)
    requires f.htype.Repeated? && f.Packable() && DecodePacked(f, [], b) == Some([] + items)
    ensures DecodeSlot(f, Array([]), WT_STRING, Octets(b)) == Some(Array(items))
  {
    assert [] + items == items;
  }

  lemma {:induction false} ArrayItems(fields: seq<Field>, m: seq<Slot>, k: nat)
    requires k < |fields| && Normal(fields, m) && fields[k].htype.Repeated? && m[k].Array?
    ensures NormalItems(fields[k], m[k].items) && |m[k].items| <= fields[k].arraySize
    ensures m[k].items == [] ==> SlotArriving(fields, m, k) == DefaultSlot(fields[k])
    ensures SlotArriving(fields, m, k) == Array(ItemsArriving(fields[k], m[k].items))
    ensures fields[k].Packable() ==> ItemsArriving(fields[k], m[k].items) == m[k].items
  {
    assert NormalSlot(fields[k], m[k]);
  }

  /** With the elements of array field k stored, the decoder is one field on. */
  lemma {:induction false} ArrayStored(fields: seq<Field>, m: seq<Slot>, k: nat, st: State, st': State)
    requires k < |fields| && Normal(fields, m) && Midway(fields, m, k, st) && fields[k].htype.Repeated?
    requires st' == State(st.slots[k := SlotArriving(fields, m, k)], if fields[k].FixedCount() then Some(k) else st.run, st.seen + {k})
    ensures Midway(fields, m, k + 1, st')
  {
    HomeKind(fields, k);
    MixStep(fields, m, k);
    hide Normal, Home, Mix, SlotArriving;
  }

  /** An array field, packed or not. */
  lemma {:induction false} ArrayField(fields: seq<Field>, m: seq<Slot>, k: nat, st: State, t: seq<byte>) returns (st': State)
    requires k < |fields| && WellFormed(fields) && Normal(fields, m) && Midway(fields, m, k, st)
    requires fields[k].htype.Repeated? && m[k].Array?
    requires EncodeArray(fields[k], m[k].items).Some?
    requires SlotReadable(fields[k], m[k])
    ensures Run(fields, st, EncodeArray(fields[k], m[k].items).value + t) == Run(fields, st', t)
    ensures Midway(fields, m, k + 1, st')
    decreases fields, 4
  {
    assert |m| == |fields|;
    hide Midway, Filling, Normal, WellFormed, Run, Home, NormalItems, Readable, SlotArriving, ItemsArriving;
    var f, items := fields[k], m[k].items;
    ArrayItems(fields, m, k);
    if items == [] {
      assert EncodeArray(f, items).value + t == t;
      AbsentField(fields, m, k, st);
      st' := st;
    } else {
      var st1 := EnterArray(fields, m, k, st);
      assert [] + ItemsArriving(f, items) == ItemsArriving(f, items);
      if f.Packable() {
        st' := PackedField(fields, k, st, st1, items, t);
      } else {
        st' := UnpackedRead(fields, k, st, st1, [], items, t);
      }
      ArrayStored(fields, m, k, st, st');
    }
  }

  // ----- the whole message

  /** Every normal message has an encoding. */
  lemma {:induction false} EncodeTotal(fields: seq<Field>, m: seq<Slot>)
    requires WellFormed(fields) && Normal(fields, m)
    ensures Encode(fields, m).Some?
    decreases fields, 2
  {
    EncodeFromTotal(fields, m, 0);
  }

  lemma {:induction false} EncodeFromTotal(fields: seq<Field>, m: seq<Slot>, k: nat)
    requires WellFormed(fields) && Normal(fields, m) && k <= |fields|
    ensures EncodeFrom(fields, m, k).Some?
    decreases fields, 1, |fields| - k
  {
    if k < |fields| {
      EncodeFieldTotal(fields, m, k);
      EncodeFromTotal(fields, m, k + 1);
    }
  }

  lemma {:induction false} EncodeFieldTotal(fields: seq<Field>, m: seq<Slot>, k: nat)
    requires k < |fields| && WellFormed(fields) && Normal(fields, m)
    ensures EncodeSlot(fields[k], m[Home(fields, k)]).Some?
    decreases fields, 0
  {
    var f, slot := fields[k], m[Home(fields, k)];
    HomeKind(fields, k);
    SlotKinds(fields, m, k);
    assert NormalSlot(f, m[k]) && FieldOk(f);
    match f.htype
    case Required => EncodeValueTotal(f, slot.v);
    case Optional => if slot.Flagged? ==> slot.has { EncodeValueTotal(f, slot.v); }
    case Repeated => EncodeItemsTotal(f, slot.items);
    case OneOf =>
      SelectedField(fields, m, k);
      if slot.which == f.tag { EncodeValueTotal(f, slot.v); }
  }

  lemma {:induction false} EncodeItemsTotal(f: Field, items: seq<Value>)
    requires FieldOk(f) && NormalItems(f, items)
    ensures EncodeUnpacked(f, items).Some?
    ensures f.Packable() ==> EncodeItems(f, items).Some?
    decreases f, 1, |items|
  {
    if items != [] {
      EncodeValueTotal(f, items[0]);
      EncodeItemsTotal(f, items[1..]);
    }
  }

  lemma {:induction false} EncodeValueTotal(f: Field, v: Value)
    requires FieldOk(f) && NormalValue(f, v)
    ensures EncodeValue(f, v).Some?
    decreases f, 0
  {
    if f.ltype.SubMessage? { EncodeTotal(f.ltype.sub, v.slots); }
  }

  /** One field's bytes take the decoder from before it to after it. */
  lemma {:induction false} FieldRead(fields: seq<Field>, m: seq<Slot>, k: nat, st: State, t: seq<byte>) returns (st': State)
    requires k < |fields| && WellFormed(fields) && Normal(fields, m) && Midway(fields, m, k, st)
    requires EncodeSlot(fields[k], m[Home(fields, k)]).Some?
    requires SlotReadable(fields[k], m[Home(fields, k)])
    ensures Run(fields, st, EncodeSlot(fields[k], m[Home(fields, k)]).value + t) == Run(fields, st', t)
    ensures Midway(fields, m, k + 1, st')
    decreases fields, 5
  {
    var f, slot := fields[k], m[Home(fields, k)];
    HomeKind(fields, k);
    SlotKinds(fields, m, k);
    assert NormalSlot(f, m[k]) && FieldOk(f);
    if f.htype.OneOf? { SelectedField(fields, m, k); }
    if f.htype.Repeated? {
      st' := ArrayField(fields, m, k, st, t);
    } else if f.htype.Required? || (slot.Flagged? && slot.has) || (slot.Single? && !IsZeroValue(f, slot.v))
              || (slot.Union? && slot.which == f.tag) {
      st' := SingleField(fields, m, k, st, slot.v, t);
    } else {
      AbsentField(fields, m, k, st);
      st' := st;
      assert [] + t == t;
    }
  }

  lemma {:induction false} FieldsRead(fields: seq<Field>, m: seq<Slot>, k: nat, st: State) returns (st': State)
    requires k <= |fields| && WellFormed(fields) && Normal(fields, m) && Midway(fields, m, k, st)
    requires EncodeFrom(fields, m, k).Some? && MessageReadable(fields, m)
    ensures Run(fields, st, EncodeFrom(fields, m, k).value) == Some(st')
    ensures Midway(fields, m, |fields|, st')
    decreases fields, 6, |fields| - k
  {
    hide WellFormed, Midway, EncodeSlot, ApplyRecord, ReadRecord, NormalSlot, NormalUnion;
    if k == |fields| {
      st' := st;
    } else {
      var t := EncodeFrom(fields, m, k + 1).value;
      var st1 := FieldRead(fields, m, k, st, t);
      st' := FieldsRead(fields, m, k + 1, st1);
    }
  }

  lemma {:induction false} MixAll(fields: seq<Field>, m: seq<Slot>)
    requires Normal(fields, m)
    ensures Mix(fields, m, |fields|) == Arriving(fields, m)
  {
    forall j | 0 <= j < |m|
      ensures Settled(fields, m, j, |fields|) || SlotArriving(fields, m, j) == DefaultSlot(fields[j])
    {
      SlotKinds(fields, m, j);
      if m[j].Union? { assert NormalUnion(fields, m, j); }
    }
  }

  lemma {:induction false} MidwayEnd(fields: seq<Field>, m: seq<Slot>, st: State)
    requires Normal(fields, m) && Midway(fields, m, |fields|, st)
    ensures Finish(fields, st) == Some(Arriving(fields, m))
  {
    MixAll(fields, m);
    if st.run.Some? {
      var j := st.run.value;
      assert NormalSlot(fields[j], m[j]);
    }
  }

  /** Decoding the encoding of a normal message gives what of it arrives, provided the payload of each
      submessage and each packed array is below 4 GiB. */
  lemma {:induction false} MessageRoundTrip(fields: seq<Field>, m: seq<Slot>)
    requires WellFormed(fields) && Normal(fields, m)
    requires MessageReadable(fields, m)
    ensures Encode(fields, m).Some?
    ensures Decode(fields, Encode(fields, m).value) == Some(Arriving(fields, m))
    decreases fields, 9
  {
    EncodeTotal(fields, m);
    var st := State(Defaults(fields), None, {});
    assert Mix(fields, m, 0) == Defaults(fields) by {
      forall j | 0 <= j < |m|
        ensures !Settled(fields, m, j, 0)
      {
      }
    }
    var st' := FieldsRead(fields, m, 0, st);
    MidwayEnd(fields, m, st');
  }

  // ----- which messages arrive whole

  lemma {:induction false} ValueKept(f: Field, v: Value)
    requires FieldOk(f) && NormalValue(f, v)
    ensures ValueArriving(f, v) == v <==> KeptValue(f, v)
    decreases f, 0
  {
    if f.ltype.SubMessage? { ArrivingKept(f.ltype.sub, v.slots); }
  }

  lemma {:induction false} SlotKept(fields: seq<Field>, m: seq<Slot>, j: nat)
    requires j < |fields| && WellFormed(fields) && Normal(fields, m)
    ensures SlotArriving(fields, m, j) == m[j] <==> KeptSlot(fields, m, j)
    decreases fields, 0
  {
    var f := fields[j];
    assert NormalSlot(f, m[j]) && FieldOk(f);
    hide NormalValue, WellFormed, ValueArriving, KeptValue, HoldsArray, IsZeroValue;
    match m[j]
    case Array(items) =>
      forall i | 0 <= i < |items| ensures ItemsArriving(f, items)[i] == items[i] <==> KeptValue(f, items[i]) {
        ValueKept(f, items[i]);
      }
      if forall i :: 0 <= i < |items| ==> KeptValue(f, items[i]) {
        assert ItemsArriving(f, items) == items;
      } else {
        var i :| 0 <= i < |items| && !KeptValue(f, items[i]);
        assert ItemsArriving(f, items)[i] != items[i];
      }
    case Flagged(has, v) => if has { ValueKept(f, v); }
    case Single(v) => if f.Singular() && IsZeroValue(f, v) { ZeroIsDefault(f, v); } else { ValueKept(f, v); }
    case Union(which, v) =>
      assert NormalUnion(fields, m, j);
      if m[j] != NOTHING {
        var i :| 0 <= i < |fields| && Home(fields, i) == j && Selects(fields[i], m[j]);
        assert Find(fields, which) == Some(i) by { TagFound(fields, i); }
        assert FieldOk(fields[i]);
        ValueKept(fields[i], v);
      } else {
        NoField(fields);
      }
  }

  lemma {:induction false} TagFound(fields: seq<Field>, i: nat)
    requires i < |fields| && WellFormed(fields)
    ensures Find(fields, fields[i].tag) == Some(i)
  {
  }

  lemma {:induction false} NoField(fields: seq<Field>)
    requires WellFormed(fields)
    ensures Find(fields, 0) == None
  {
    if Find(fields, 0).Some? { assert FieldOk(fields[Find(fields, 0).value]); }
  }

  /** A message arrives as it is exactly when it is kept. */
  lemma {:induction false} ArrivingKept(fields: seq<Field>, m: seq<Slot>)
    requires WellFormed(fields) && Normal(fields, m)
    ensures Arriving(fields, m) == m <==> Kept(fields, m)
    decreases fields, 1
  {
    forall j | 0 <= j < |m| ensures SlotArriving(fields, m, j) == m[j] <==> KeptSlot(fields, m, j) {
      SlotKept(fields, m, j);
    }
    assert |m| == |fields|;
    var all := forall j :: 0 <= j < |m| ==> KeptSlot(fields, m, j);
    assert Kept(fields, m) == all;
    hide Kept, KeptSlot, SlotArriving, WellFormed, Normal;
    if all {
      assert Arriving(fields, m) == m;
    } else {
      var j :| 0 <= j < |m| && !KeptSlot(fields, m, j);
      assert Arriving(fields, m)[j] != m[j];
    }
  }

  /** Decoding the encoding of a normal message gives it back exactly when it is kept. */
  lemma {:induction false} RoundTripExactly(fields: seq<Field>, m: seq<Slot>)
    requires WellFormed(fields) && Normal(fields, m) && MessageReadable(fields, m)
    ensures Encode(fields, m).Some?
    ensures Decode(fields, Encode(fields, m).value) == Some(m) <==> Kept(fields, m)
  {
    hide WellFormed, Normal, MessageReadable, Encode, Decode, Kept;
    MessageRoundTrip(fields, m);
    ArrivingKept(fields, m);
  }

  /** Nothing is lost where no fixed-count array can be in a proto3 singular submessage. */
  predicate ArrayFree(f: Field)
    decreases f
  {
    && (f.Singular() ==> !HoldsArray(f))
    && (f.ltype.SubMessage? ==> forall i :: 0 <= i < |f.ltype.sub| ==> ArrayFree(f.ltype.sub[i]))
  }

  lemma {:induction false} AlwaysKept(fields: seq<Field>, m: seq<Slot>)
    requires forall i :: 0 <= i < |fields| ==> ArrayFree(fields[i])
    ensures Kept(fields, m)
    decreases fields, 1
  {
    if |m| == |fields| {
      forall j | 0 <= j < |m| ensures KeptSlot(fields, m, j) {
        forall i, v | 0 <= i < |fields| ensures KeptValue(fields[i], v) { AlwaysKeptValue(fields[i], v); }
        assert ArrayFree(fields[j]);
      }
    }
  }

  lemma {:induction false} AlwaysKeptValue(f: Field, v: Value)
    requires ArrayFree(f)
    ensures KeptValue(f, v)
    decreases f, 0
  {
    if f.ltype.SubMessage? && v.Msg? { AlwaysKept(f.ltype.sub, v.slots); }
  }

  /** A message that is not kept: an array of two in a proto3 singular submessage, the first element zero.
      It is encoded as nothing. */
  lemma {:induction false} LostMessage()
    ensures var g := Field(1, UVarintType, Repeated, 0, 0, 4, 2, None);
            var f := Field(1, SubMessage([g]), Optional, 0, 0, 8, 0, None);
            var m := [Single(Msg([Array([Num(0), Num(5)])]))];
            && WellFormed([f]) && Normal([f], m) && Encode([f], m) == Some([])
            && Decode([f], []) == Some([Single(Msg([Array([])]))])
  {
    var g := Field(1, UVarintType, Repeated, 0, 0, 4, 2, None);
    var f := Field(1, SubMessage([g]), Optional, 0, 0, 8, 0, None);
    var items := [Num(0), Num(5)];
    var m := [Single(Msg([Array(items)]))];
    LostNormal(g, f, items);
    LostZero(g, f, items);
    hide NormalValue, IsZeroValue, WellFormed, Normal, FieldOk;
    assert EncodeSlot(f, m[0]) == Some([]);
    var nothing: seq<byte> := [];
    assert nothing + nothing == nothing;
    assert EncodeFrom([f], m, 1) == Some([]);
    assert EncodeFrom([f], m, 0) == Some([]);
    assert Lex([f], []) == Some([]);
    LostDefault(g, f);
    hide Defaults;
  }

  lemma {:induction false} LostDefault(g: Field, f: Field)
    requires g == Field(1, UVarintType, Repeated, 0, 0, 4, 2, None) && f == Field(1, SubMessage([g]), Optional, 0, 0, 8, 0, None)
    ensures Defaults([f]) == [Single(Msg([Array([])]))]
  {
    assert DefaultSlot(g) == Array([]);
    assert Defaults([g]) == [Array([])];
    assert DefaultValue(f) == Msg(Defaults([g]));
    assert DefaultSlot(f) == Single(DefaultValue(f));
  }

  lemma {:induction false} LostNormal(g: Field, f: Field, items: seq<Value>)
    requires g == Field(1, UVarintType, Repeated, 0, 0, 4, 2, None) && f == Field(1, SubMessage([g]), Optional, 0, 0, 8, 0, None)
    requires items == [Num(0), Num(5)]
    ensures WellFormed([f]) && Normal([f], [Single(Msg([Array(items)]))])
  {
    assert FieldOk(g) && WellFormed([g]) && FieldOk(f);
    assert NormalSlot(g, Array(items));
    assert Normal([g], [Array(items)]);
    assert NormalValue(f, Msg([Array(items)]));
  }

  lemma {:induction false} LostZero(g: Field, f: Field, items: seq<Value>)
    requires g == Field(1, UVarintType, Repeated, 0, 0, 4, 2, None) && f == Field(1, SubMessage([g]), Optional, 0, 0, 8, 0, None)
    requires items == [Num(0), Num(5)]
    ensures IsZeroValue(f, Msg([Array(items)]))
  {
    FirstZero(g, items);
    hide StoredCount;
    assert IsZero(g, Array(items));
  }

  /** An array of 32-bit numbers has a zero count exactly when its first element is zero. */
  lemma {:induction false} FirstZero(g: Field, items: seq<Value>)
    requires g.ltype.UVarintType? && g.dataSize == 4 && items != []
    requires items[0].Num? && 0 <= items[0].n < TWO_32
    ensures StoredCount(g, items) == items[0].n
  {
    hide LittleEndian, FromLittleEndian, Pow2;
    var n := items[0].n;
    Varint.Pow2_32();
    LittleEndianRoundTrip(n, 4);
    assert n % TWO_32 == n;
    assert Memory(g, items)[..4] == LittleEndian(n, 4);
  }
}
