/** Field descriptors, and the struct contents they describe. */
module Descriptor {
  import opened Bits

  /** Widths fixed by the build, which defines PB_FIELD_32BIT. */
  const PB_SIZE_MAX: int := TWO_32 - 1
  type pbsize = x: int | 0 <= x < 0x1_0000_0000
  const BYTES_HEADER: int := 4
  const MAX_REQUIRED_FIELDS: int := 64

  datatype LType =
    | VarintType | UVarintType | SVarintType | Fixed32Type | Fixed64Type
    | BytesType | StringType | SubMessage(sub: seq<Field>) | FixedLengthBytes

  datatype HType = Required | Optional | Repeated | OneOf

  /** One statically allocated entry of a descriptor table. */
  datatype Field = Field(
    tag: pbsize, ltype: LType, htype: HType,
    dataOffset: pbsize, sizeOffset: int, dataSize: pbsize, arraySize: pbsize,
    initial: Option<Value>)
  {
    predicate Packable() {
      ltype.VarintType? || ltype.UVarintType? || ltype.SVarintType? || ltype.Fixed32Type? || ltype.Fixed64Type?
    }

    /** A repeated field without a count member in the struct. */
    predicate FixedCount() { htype.Repeated? && sizeOffset == 0 }

    /** A proto3 singular field: optional, without a has_ member. */
    predicate Singular() { htype.Optional? && sizeOffset == 0 }
  }

  /** The contents of one member: a number, some bytes, or a nested struct. */
  datatype Value = Num(n: int) | Blob(b: seq<byte>) | Msg(slots: seq<Slot>)

  /** What the struct holds for a field: the bare member, a member with its has_ flag, the live
      part of an array, or a union with its which_ tag (0 when nothing is selected). */
  datatype Slot =
    | Single(v: Value)
    | Flagged(has: bool, v: Value)
    | Array(items: seq<Value>)
    | Union(which: nat, v: Value)

  const NOTHING: Slot := Union(0, Num(0))

  /** The next field continues the union of the previous one. */
  predicate Joined(fields: seq<Field>, i: nat)
    requires i < |fields|
  {
    i > 0 && fields[i - 1].htype.OneOf? && fields[i].htype.OneOf? && fields[i].dataOffset == PB_SIZE_MAX
  }

  /** The index whose storage field i uses: its own, or the first member of its union. */
  function Home(fields: seq<Field>, i: nat): (h: nat)
    requires i < |fields|
    ensures h <= i
  {
    if Joined(fields, i) then Home(fields, i - 1) else i
  }

  lemma {:induction false} HomeKind(fields: seq<Field>, i: nat)
    requires i < |fields|
    ensures fields[Home(fields, i)].htype.OneOf? == fields[i].htype.OneOf?
    ensures !fields[i].htype.OneOf? ==> Home(fields, i) == i
  {
    if Joined(fields, i) { HomeKind(fields, i - 1); }
  }

  lemma {:induction false} HomeFixed(fields: seq<Field>, i: nat)
    requires i < |fields|
    ensures Home(fields, Home(fields, i)) == Home(fields, i)
  {
    if Joined(fields, i) { HomeFixed(fields, i - 1); }
  }

  /** Index of the field with a tag. */
  function Find(fields: seq<Field>, tag: nat): (r: Option<nat>)
    ensures r.Some? ==> r.value < |fields| && fields[r.value].tag == tag
    ensures r.None? ==> forall i :: 0 <= i < |fields| ==> fields[i].tag != tag
  {
    if fields == [] then None
    else if fields[0].tag == tag then Some(0)
    else match Find(fields[1..], tag) case None => None case Some(i) => Some(i + 1)
  }

  predicate DistinctTags(fields: seq<Field>) {
    forall i, j :: 0 <= i < j < |fields| ==> fields[i].tag != fields[j].tag
  }

  /** A table the code generator would accept: nonzero distinct tags, at every level. */
  predicate Table(fields: seq<Field>)
    decreases fields
  {
    DistinctTags(fields) && forall i :: 0 <= i < |fields| ==> Entry(fields[i])
  }

  predicate Entry(f: Field)
    decreases f
  {
    f.tag != 0 && (f.ltype.SubMessage? ==> Table(f.ltype.sub))
  }

  function Zeros(n: nat): (z: seq<byte>)
    ensures |z| == n
  {
    seq(n, _ => 0)
  }

  // ----- default contents

  function DefaultValue(f: Field): Value
    decreases f, 0
  {
    if f.ltype.SubMessage? then Msg(Defaults(f.ltype.sub))
    else if f.initial.Some? then f.initial.value
    else if f.ltype.BytesType? || f.ltype.StringType? then Blob([])
    else if f.ltype.FixedLengthBytes? then Blob(Zeros(f.dataSize))
    else Num(0)
  }

  function DefaultSlot(f: Field): Slot
    decreases f, 1
  {
    match f.htype
    case Required => Single(DefaultValue(f))
    case Optional => if f.sizeOffset != 0 then Flagged(false, DefaultValue(f)) else Single(DefaultValue(f))
    case Repeated => Array([])
    case OneOf => NOTHING
  }

  function Defaults(fields: seq<Field>): (slots: seq<Slot>)
    ensures |slots| == |fields|
    decreases fields
  {
    seq(|fields|, i requires 0 <= i < |fields| => DefaultSlot(fields[i]))
  }

  // ----- numbers in memory

  predicate NumericSize(n: nat) { n == 1 || n == 2 || n == 4 || n == 8 }

  function Span(size: nat): nat {
    if size == 1 then 0x100 else if size == 2 then 0x1_0000 else if size == 4 then TWO_32 else TWO_64
  }

  /** n is a value the numeric member of f can hold. */
  predicate Holds(f: Field, n: int) {
    match f.ltype
    case VarintType => NumericSize(f.dataSize) && -(Span(f.dataSize) / 2) <= n < Span(f.dataSize) / 2
    case SVarintType => NumericSize(f.dataSize) && -(Span(f.dataSize) / 2) <= n < Span(f.dataSize) / 2
    case UVarintType => NumericSize(f.dataSize) && 0 <= n < Span(f.dataSize)
    case Fixed32Type => 0 <= n < TWO_32
    case Fixed64Type => 0 <= n < TWO_64
    case _ => false
  }

  /** Two's complement reinterpretations. */
  function ToUnsigned64(n: int): nat { n % TWO_64 }

  function ToSigned(u: int, span: nat): int
    requires span > 0
  {
    if u % span < span / 2 then u % span else u % span - span
  }

  // ----- zig-zag

  function ZigZag(n: int): nat {
    var doubled := ToUnsigned64(n) * 2 % TWO_64;
    if n < 0 then TWO_64 - 1 - doubled else doubled
  }

  function UnZigZag(u: nat): int
    requires u < TWO_64
  {
    if u % 2 == 1 then ToSigned(TWO_64 - 1 - u / 2, TWO_64) else ToSigned(u / 2, TWO_64)
  }

  lemma {:induction false} ZigZagRoundTrip(n: int)
    requires -TWO_63 <= n && n < TWO_63
    ensures ZigZag(n) < TWO_64 && UnZigZag(ZigZag(n)) == n
  {
    if n < 0 { NegativeCode(n); } else { assert ZigZag(n) == 2 * n; }
    hide ZigZag;
  }

  /** The code counts 0, -1, 1, -2 and so on. */
  lemma {:induction false} ZigZagCode(n: int)
    requires -TWO_63 <= n && n < TWO_63
    ensures ZigZag(n) == if n >= 0 then 2 * n else -2 * n - 1
  {
    if n < 0 { NegativeCode(n); }
  }

  lemma {:induction false} NegativeCode(n: int)
    requires -TWO_63 <= n < 0
    ensures ZigZag(n) == -2 * n - 1
  {
    assert ToUnsigned64(n) == n + TWO_64;
    assert (n + TWO_64) * 2 % TWO_64 == 2 * n + TWO_64;
  }

  // ----- fixed-width words

  function LittleEndian(v: nat, k: nat): (s: seq<byte>)
    ensures |s| == k
  {
    if k == 0 then [] else [v % 256] + LittleEndian(v / 256, k - 1)
  }

  function FromLittleEndian(s: seq<byte>): nat {
    if s == [] then 0 else s[0] + 256 * FromLittleEndian(s[1..])
  }

  /** The least significant byte comes first. */
  lemma {:induction false} LittleEndianAt(v: nat, k: nat, i: nat)
    requires i < k
    ensures LittleEndian(v, k)[i] == v / Pow2(8 * i) % 256
  {
    if i > 0 {
      LittleEndianAt(v / 256, k - 1, i - 1);
      Pow2Add(8, 8 * (i - 1));
      PowersOfTwo();
      hide Pow2;
      DivideTwice(v, 256, Pow2(8 * (i - 1)));
    }
  }

  lemma {:induction false} LittleEndianRoundTrip(v: nat, k: nat)
    requires v < Pow2(8 * k)
    ensures FromLittleEndian(LittleEndian(v, k)) == v
  {
    if k > 0 {
      Pow2Add(8, 8 * (k - 1));
      PowersOfTwo();
      LittleEndianRoundTrip(v / 256, k - 1);
      assert LittleEndian(v, k)[1..] == LittleEndian(v / 256, k - 1);
    }
  }
}
