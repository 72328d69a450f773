/** What the encoder writes for a struct, as a function; None is an encoding error. */
module Encoder {
  import opened Bits
  import opened Descriptor
  import opened Wire
  import Varint

  function Key(tag: nat, wt: nat): seq<byte> { Varint.Encode(tag * 8 + wt) }

  function FieldWireType(t: LType): nat {
    match t
    case VarintType => WT_VARINT
    case UVarintType => WT_VARINT
    case SVarintType => WT_VARINT
    case Fixed32Type => WT_32BIT
    case Fixed64Type => WT_64BIT
    case _ => WT_STRING
  }

  /** A length prefix, cast to 64 bits, and the bytes. */
  function Delimit(b: seq<byte>): seq<byte> { Varint.Encode(|b| % TWO_64) + b }

  function Join(a: Option<seq<byte>>, b: Option<seq<byte>>): Option<seq<byte>> {
    if a.Some? && b.Some? then Some(a.value + b.value) else None
  }

  /** The C string in a character buffer: everything before the first NUL. */
  function CString(b: seq<byte>): (c: seq<byte>)
    ensures |c| <= |b|
    ensures 0 !in b ==> c == b
  {
    if b == [] || b[0] == 0 then [] else [b[0]] + CString(b[1..])
  }

  // ----- the proto3 zero test

  /** How many bytes a number of an array takes in memory. */
  function ElementSize(f: Field): nat {
    if f.ltype.Fixed32Type? then 4 else if f.ltype.Fixed64Type? then 8 else f.dataSize
  }

  /** The bytes an array element begins with in memory, least significant first: a number, the length of
      a bytes array, or the bytes of a fixed-length one. */
  function ElementBytes(f: Field, v: Value): seq<byte> {
    match v
    case Num(n) => LittleEndian(n % Span(ElementSize(f)), ElementSize(f))
    case Blob(b) => if f.ltype.BytesType? then LittleEndian(|b|, BYTES_HEADER) else b
    case Msg(_) => []
  }

  function Memory(f: Field, items: seq<Value>): seq<byte> {
    if items == [] then [] else ElementBytes(f, items[0]) + Memory(f, items[1..])
  }

  /** What the test takes for the count of an array that has none: the four bytes the array begins with.
      They are zero when nothing was decoded into it. */
  function StoredCount(f: Field, items: seq<Value>): nat {
    var m := Memory(f, items);
    if |m| < 4 then 0 else FromLittleEndian(m[..4])
  }

  /** The elements determine these four bytes; for strings and structs they depend on what else is in
      memory. */
  predicate CountKnown(f: Field) {
    match f.ltype
    case SubMessage(_) => false
    case StringType => false
    case BytesType => f.arraySize >= 1
    case FixedLengthBytes => f.dataSize * f.arraySize >= 4
    case _ => ElementSize(f) * f.arraySize >= 4
  }

  /** The zero test of a proto3 singular submessage reads no other count. */
  predicate CountsKnown(f: Field) {
    f.Singular() && f.ltype.SubMessage? ==>
      forall i :: 0 <= i < |f.ltype.sub| && f.ltype.sub[i].FixedCount() ==> CountKnown(f.ltype.sub[i])
  }

  predicate IsZero(f: Field, slot: Slot)
    decreases f, 1
  {
    match slot
    case Array(items) => if f.FixedCount() then StoredCount(f, items) == 0 else items == []
    case Union(which, _) => which == 0
    case Flagged(has, _) => !has
    case Single(v) => f.htype.Optional? && IsZeroValue(f, v)
  }

  predicate IsZeroValue(f: Field, v: Value)
    decreases f, 0
  {
    match v
    case Num(n) => n == 0
    case Blob(b) =>
      if f.ltype.StringType? then b == [] || b[0] == 0
      else if f.ltype.FixedLengthBytes? then f.dataSize == 0
      else b == []
    case Msg(slots) =>
      f.ltype.SubMessage? && |slots| == |f.ltype.sub| &&
      forall i :: 0 <= i < |f.ltype.sub| ==> IsZero(f.ltype.sub[i], slots[Home(f.ltype.sub, i)])
  }

  // ----- fields

  /** A number or byte string in its wire form, without key. */
  function EncodeScalar(f: Field, v: Value): Option<seq<byte>> {
    match f.ltype
    case SubMessage(_) => None
    case BytesType => if v.Blob? && |v.b| + BYTES_HEADER <= f.dataSize then Some(Delimit(v.b)) else None
    case StringType => if v.Blob? && |v.b| <= f.dataSize then Some(Delimit(CString(v.b))) else None
    case FixedLengthBytes => if v.Blob? && |v.b| == f.dataSize then Some(Delimit(v.b)) else None
    case _ => if v.Num? && Holds(f, v.n) then Some(EncodeNumber(f, v.n)) else None
  }

  function EncodeNumber(f: Field, n: int): seq<byte>
    requires Holds(f, n)
  {
    match f.ltype
    case VarintType => Varint.Encode(ToUnsigned64(n))
    case UVarintType => Varint.Encode(n)
    case SVarintType => Varint.Encode(ZigZag(n))
    case Fixed32Type => LittleEndian(n, 4)
    case Fixed64Type => LittleEndian(n, 8)
  }

  function EncodeValue(f: Field, v: Value): Option<seq<byte>>
    decreases f, 0
  {
    match f.ltype
    case SubMessage(sub) =>
      if v.Msg? then
        match Encode(sub, v.slots) case None => None case Some(b) => Some(Delimit(b))
      else None
    case _ => EncodeScalar(f, v)
  }

  function EncodeKeyed(f: Field, v: Value): Option<seq<byte>>
    decreases f, 1
  {
    Join(Some(Key(f.tag, FieldWireType(f.ltype))), EncodeValue(f, v))
  }

  function EncodeItems(f: Field, items: seq<Value>): Option<seq<byte>> {
    if items == [] then Some([]) else Join(EncodeScalar(f, items[0]), EncodeItems(f, items[1..]))
  }

  function EncodeUnpacked(f: Field, items: seq<Value>): Option<seq<byte>>
    decreases f, 2, |items|
  {
    if items == [] then Some([]) else Join(EncodeKeyed(f, items[0]), EncodeUnpacked(f, items[1..]))
  }

  function EncodeArray(f: Field, items: seq<Value>): Option<seq<byte>>
    decreases f, 3
  {
    if items == [] then Some([])
    else if |items| > f.arraySize then None
    else if f.Packable() then
      match EncodeItems(f, items)
      case None => None
      case Some(b) => Some(Key(f.tag, WT_STRING) + Delimit(b))
    else EncodeUnpacked(f, items)
  }

  function EncodeSlot(f: Field, slot: Slot): Option<seq<byte>>
    decreases f, 4
  {
    match (f.htype, slot)
    case (Required, Single(v)) => EncodeKeyed(f, v)
    case (Optional, Flagged(has, v)) => if has then EncodeKeyed(f, v) else Some([])
    case (Optional, Single(v)) => if IsZeroValue(f, v) then Some([]) else EncodeKeyed(f, v)
    case (Repeated, Array(items)) =>
      if f.FixedCount() && |items| != f.arraySize then None else EncodeArray(f, items)
    case (OneOf, Union(which, v)) => if which == f.tag then EncodeKeyed(f, v) else Some([])
    case _ => None
  }

  /** Fields k.. in descriptor order. */
  function EncodeFrom(fields: seq<Field>, slots: seq<Slot>, k: nat): Option<seq<byte>>
    requires k <= |fields| == |slots|
    decreases fields, 0, |fields| - k
  {
    if k == |fields| then Some([])
    else Join(EncodeSlot(fields[k], slots[Home(fields, k)]), EncodeFrom(fields, slots, k + 1))
  }

  function Encode(fields: seq<Field>, slots: seq<Slot>): Option<seq<byte>>
    decreases fields, 1
  {
    if |slots| != |fields| then None else EncodeFrom(fields, slots, 0)
  }

  // ----- structs that match their descriptor

  /** The value is one the member of f can store. */
  predicate ShapedValue(f: Field, v: Value)
    decreases f, 0
  {
    match f.ltype
    case SubMessage(sub) => v.Msg? && Shaped(sub, v.slots)
    case BytesType => v.Blob?
    case StringType => v.Blob? && |v.b| <= f.dataSize
    case FixedLengthBytes => v.Blob? && |v.b| == f.dataSize
    case _ => v.Num? && ((f.ltype.Fixed32Type? || f.ltype.Fixed64Type? || NumericSize(f.dataSize)) ==> Holds(f, v.n))
  }

  predicate ShapedSlot(f: Field, slot: Slot)
    decreases f, 2
  {
    match (f.htype, slot)
    case (Required, Single(v)) => ShapedValue(f, v)
    case (Optional, Flagged(has, v)) => f.sizeOffset != 0 && (has ==> ShapedValue(f, v))
    case (Optional, Single(v)) => f.sizeOffset == 0 && CountsKnown(f) && ShapedValue(f, v)
    case (Repeated, Array(items)) =>
      (f.FixedCount() ==> |items| == f.arraySize) && ShapedItems(f, items)
    case (OneOf, Union(which, v)) => which == f.tag ==> ShapedValue(f, v)
    case _ => false
  }

  predicate ShapedItems(f: Field, items: seq<Value>)
    decreases f, 1
  {
    forall i :: 0 <= i < |items| ==> ShapedValue(f, items[i])
  }

  /** How many bytes of an element these are. */
  function BeginLength(f: Field): nat {
    if f.ltype.BytesType? then BYTES_HEADER else if f.ltype.FixedLengthBytes? then f.dataSize else ElementSize(f)
  }

  lemma {:induction false} ElementBegin(f: Field, v: Value)
    requires CountKnown(f) && ShapedValue(f, v)
    ensures |ElementBytes(f, v)| == BeginLength(f)
  {
    hide LittleEndian;
  }

  lemma {:induction false} Distribute(n: nat, k: nat)
    requires n > 0
    ensures n * k == k + (n - 1) * k
  {
  }

  lemma {:induction false} MemoryLength(f: Field, items: seq<Value>)
    requires CountKnown(f) && ShapedItems(f, items)
    ensures |Memory(f, items)| == |items| * BeginLength(f)
    decreases |items|
  {
    hide ElementBytes, ShapedValue, CountKnown, BeginLength;
    if items == [] { return; }
    ElementBegin(f, items[0]);
    MemoryLength(f, items[1..]);
    Distribute(|items|, BeginLength(f));
  }

  /** A full array reaches over the four bytes that are read. */
  lemma {:induction false} CountDetermined(f: Field, items: seq<Value>)
    requires CountKnown(f) && ShapedItems(f, items) && |items| == f.arraySize
    ensures |Memory(f, items)| >= 4 && StoredCount(f, items) == FromLittleEndian(Memory(f, items)[..4])
  {
    hide Memory, ShapedItems;
    MemoryLength(f, items);
    CountReaches(f);
  }

  lemma {:induction false} CountReaches(f: Field)
    requires CountKnown(f)
    ensures f.arraySize * BeginLength(f) >= 4
  {
  }

  /** The struct is one the descriptor describes. */
  predicate Shaped(fields: seq<Field>, slots: seq<Slot>)
    decreases fields
  {
    |slots| == |fields| && forall i :: 0 <= i < |fields| ==> ShapedSlot(fields[i], slots[Home(fields, i)])
  }
}
