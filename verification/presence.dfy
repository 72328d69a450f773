/** Which members the encoder writes, and which messages it refuses. */
module Presence {
  import opened Bits
  import opened Descriptor
  import opened Encoder
  import opened RoundTrip
  import Contents

  /** A default in the member can be left out: it holds no fixed-length bytes, which count as zero only when there
      are none, and no required field. */
  predicate Omissible(f: Field)
    decreases f
  {
    match f.ltype
    case FixedLengthBytes => f.dataSize == 0
    case SubMessage(sub) => AllOmissible(sub)
    case _ => true
  }

  predicate AllOmissible(fields: seq<Field>)
    decreases fields
  {
    forall i :: 0 <= i < |fields| ==> !fields[i].htype.Required? && (fields[i].Singular() ==> Omissible(fields[i]))
  }

  lemma {:induction false} DefaultZero(sub: seq<Field>, i: nat)
    requires i < |sub| && WellFormed(sub) && AllOmissible(sub)
    requires sub[i].Singular() ==> IsZeroValue(sub[i], DefaultValue(sub[i]))
    ensures IsZero(sub[i], Defaults(sub)[Home(sub, i)])
  {
    HomeKind(sub, i);
    hide IsZeroValue, DefaultValue, Omissible, WellFormed;
  }

  /** The zero test passes exactly on a default that can be left out, where no fixed-count array is. */
  lemma {:induction false} ZeroExactly(f: Field, v: Value)
    requires FieldOk(f) && f.Singular() && NormalValue(f, v) && !HoldsArray(f)
    ensures IsZeroValue(f, v) <==> v == DefaultValue(f) && Omissible(f)
    decreases f, 0
  {
    if f.ltype.SubMessage? {
      var sub := f.ltype.sub;
      if IsZeroValue(f, v) {
        ZeroIsDefault(f, v);
        ZeroOmissible(sub, v.slots);
      } else if v == DefaultValue(f) && Omissible(f) {
        DefaultsZero(sub);
      }
    }
  }

  lemma {:induction false} ZeroOmissible(sub: seq<Field>, slots: seq<Slot>)
    requires WellFormed(sub) && Normal(sub, slots) && forall i :: 0 <= i < |sub| ==> !HoldsArray(sub[i])
    requires forall i :: 0 <= i < |sub| ==> IsZero(sub[i], slots[Home(sub, i)])
    ensures AllOmissible(sub)
    decreases sub, 1
  {
    forall i | 0 <= i < |sub|
      ensures !sub[i].htype.Required? && (sub[i].Singular() ==> Omissible(sub[i]))
    {
      HomeKind(sub, i);
      assert NormalSlot(sub[i], slots[i]) && FieldOk(sub[i]) && IsZero(sub[i], slots[Home(sub, i)]);
      if sub[i].Singular() { ZeroExactly(sub[i], slots[i].v); }
    }
  }

  lemma {:induction false} DefaultsZero(sub: seq<Field>)
    requires WellFormed(sub) && AllOmissible(sub) && Normal(sub, Defaults(sub)) && forall i :: 0 <= i < |sub| ==> !HoldsArray(sub[i])
    ensures forall i :: 0 <= i < |sub| ==> IsZero(sub[i], Defaults(sub)[Home(sub, i)])
    decreases sub, 1
  {
    forall i | 0 <= i < |sub|
      ensures IsZero(sub[i], Defaults(sub)[Home(sub, i)])
    {
      assert NormalSlot(sub[i], Defaults(sub)[i]) && FieldOk(sub[i]) && Defaults(sub)[i] == DefaultSlot(sub[i]);
      if sub[i].Singular() { ZeroExactly(sub[i], DefaultValue(sub[i])); }
      DefaultZero(sub, i);
    }
  }

  /** What is to be written: all required fields, optional ones with their has_ flag set, proto3 singular ones that
      hold something else than a default that can be left out, arrays with elements, and the selected
      member of a union. */
  predicate Present(f: Field, slot: Slot) {
    match slot
    case Array(items) => items != []
    case Flagged(has, _) => has
    case Union(which, _) => which == f.tag
    case Single(v) => f.htype.Required? || v != DefaultValue(f) || !Omissible(f)
  }

  lemma {:induction false} KeyedNonempty(f: Field, v: Value)
    ensures EncodeKeyed(f, v) != Some([])
  {
    hide EncodeValue;
  }

  lemma {:induction false} ArrayNonempty(f: Field, items: seq<Value>)
    requires items != []
    ensures EncodeArray(f, items) != Some([])
  {
    KeyedNonempty(f, items[0]);
    hide EncodeKeyed, EncodeItems;
    if EncodeUnpacked(f, items).Some? {
      var e, rest := EncodeKeyed(f, items[0]).value, EncodeUnpacked(f, items[1..]).value;
      assert |e| > 0 && EncodeUnpacked(f, items) == Some(e + rest);
    }
  }

  /** A normal message has bytes for exactly these of its members. */
  lemma {:induction false} WrittenExactly(fields: seq<Field>, m: seq<Slot>, k: nat)
    requires k < |fields| && WellFormed(fields) && Normal(fields, m) && (fields[k].Singular() ==> !HoldsArray(fields[k]))
    ensures EncodeSlot(fields[k], m[Home(fields, k)]).Some?
    ensures EncodeSlot(fields[k], m[Home(fields, k)]).value != [] <==> Present(fields[k], m[Home(fields, k)])
  {
    var f, slot := fields[k], m[Home(fields, k)];
    EncodeFieldTotal(fields, m, k);
    HomeKind(fields, k);
    SlotKinds(fields, m, k);
    assert NormalSlot(f, m[k]) && FieldOk(f);
    hide EncodeKeyed, EncodeItems, NormalValue, IsZeroValue, DefaultValue, Omissible, Normal, WellFormed;
    match slot
    case Array(items) => if items != [] { ArrayNonempty(f, items); }
    case Flagged(_, v) => KeyedNonempty(f, v);
    case Union(_, v) => KeyedNonempty(f, v);
    case Single(v) =>
      KeyedNonempty(f, v);
      if f.Singular() { ZeroExactly(f, v); }
  }

  // ----- the count of an array that has none

  /** The size of a number in memory. */
  function NumberSize(f: Field): nat {
    match f.ltype
    case Fixed32Type => 4
    case Fixed64Type => 8
    case _ => f.dataSize
  }

  /** Numbers have one, two, four or eight bytes. */
  predicate Sized(f: Field) {
    f.Packable() ==> NumberSize(f) == 1 || NumberSize(f) == 2 || NumberSize(f) == 4 || NumberSize(f) == 8
  }

  function Modulus(size: nat): nat {
    if size == 1 then 0x100 else if size == 2 then 0x1_0000 else if size == 4 then 0x1_0000_0000 else 0x1_0000_0000_0000_0000
  }

  /** Byte k of an array in memory: of its numbers in two's complement, least significant byte first, or of its
      fixed-length bytes; a bytes array begins with the length of its first element. */
  function ByteAt(f: Field, items: seq<Value>, k: nat): int
    requires NumberSize(f) > 0 || f.ltype.BytesType?
  {
    var e := if f.ltype.BytesType? then 0 else k / NumberSize(f);
    if e >= |items| then 0
    else
      match items[e]
      case Num(n) => if f.ltype.BytesType? then 0 else n % Modulus(NumberSize(f)) / Pow2(8 * (k % NumberSize(f))) % 256
      case Blob(b) =>
        if f.ltype.BytesType? then |b| / Pow2(8 * k) % 256
        else if k % NumberSize(f) < |b| then b[k % NumberSize(f)] else 0
      case Msg(_) => 0
  }

  lemma {:induction false} WithinFirst(k: nat, size: nat)
    requires k < size
    ensures k / size == 0 && k % size == k
  {
  }

  lemma {:induction false} NumberAt(f: Field, n: int, k: nat)
    requires NumericSize(ElementSize(f)) && !f.ltype.BytesType? && k < ElementSize(f)
    ensures NumberSize(f) > 0 && ElementBytes(f, Num(n))[k] == ByteAt(f, [Num(n)], k)
  {
    hide LittleEndian, Pow2;
    WithinFirst(k, NumberSize(f));
    LittleEndianAt(n % Span(ElementSize(f)), ElementSize(f), k);
  }

  lemma {:induction false} ElementAt(f: Field, v: Value, k: nat)
    requires CountKnown(f) && Sized(f) && ShapedValue(f, v) && k < |ElementBytes(f, v)|
    ensures NumberSize(f) > 0 || f.ltype.BytesType?
    ensures ElementBytes(f, v)[k] == ByteAt(f, [v], k)
  {
    hide LittleEndian, Pow2;
    match v
    case Num(n) => NumberAt(f, n, k);
    case Blob(b) =>
      if f.ltype.BytesType? { LittleEndianAt(|b|, 4, k); } else { WithinFirst(k, NumberSize(f)); }
    case Msg(_) =>
  }

  /** The first element has the first bytes. */
  lemma {:induction false} InFirst(f: Field, items: seq<Value>, k: nat)
    requires items != [] && (f.ltype.BytesType? || k < NumberSize(f))
    ensures ByteAt(f, items, k) == ByteAt(f, [items[0]], k)
  {
    hide Modulus, Pow2;
    if !f.ltype.BytesType? { WithinFirst(k, NumberSize(f)); }
  }

  lemma {:induction false} NextElement(f: Field, items: seq<Value>, k: nat)
    requires items != [] && !f.ltype.BytesType? && k >= NumberSize(f) > 0
    ensures ByteAt(f, items, k) == ByteAt(f, items[1..], k - NumberSize(f))
  {
    var size := NumberSize(f);
    DivideUnique(k, size, (k - size) / size + 1, (k - size) % size);
    ModUnique(k, size, (k - size) / size + 1, (k - size) % size);
    hide Modulus, Pow2;
  }

  lemma {:induction false} MemoryAt(f: Field, items: seq<Value>, k: nat)
    requires CountKnown(f) && Sized(f) && ShapedItems(f, items) && k < |Memory(f, items)| && (f.ltype.BytesType? ==> k < 4)
    ensures NumberSize(f) > 0 || f.ltype.BytesType?
    ensures Memory(f, items)[k] == ByteAt(f, items, k)
    decreases |items|
  {
    hide ElementBytes, ShapedValue, CountKnown, ByteAt, BeginLength, NumberSize;
    var e := ElementBytes(f, items[0]);
    ElementBegin(f, items[0]);
    KnownSize(f);
    if k < |e| {
      ElementAt(f, items[0], k);
      InFirst(f, items, k);
    } else {
      NextElement(f, items, k);
      MemoryAt(f, items[1..], k - |e|);
    }
  }

  lemma {:induction false} KnownSize(f: Field)
    requires CountKnown(f)
    ensures f.ltype.BytesType? || NumberSize(f) > 0
    ensures BeginLength(f) == if f.ltype.BytesType? then 4 else NumberSize(f)
  {
  }

  /** What the zero test takes for the count of a full array that has none is its first four bytes in memory, least
      significant first. */
  lemma {:induction false} CountLiteral(f: Field, items: seq<Value>)
    requires CountKnown(f) && Sized(f) && ShapedItems(f, items) && |items| == f.arraySize
    ensures NumberSize(f) > 0 || f.ltype.BytesType?
    ensures StoredCount(f, items) ==
            ByteAt(f, items, 0) + 0x100 * ByteAt(f, items, 1) + 0x1_0000 * ByteAt(f, items, 2) + 0x100_0000 * ByteAt(f, items, 3)
  {
    KnownSize(f);
    CountDetermined(f, items);
    MemoryAt(f, items, 0);
    MemoryAt(f, items, 1);
    MemoryAt(f, items, 2);
    MemoryAt(f, items, 3);
    WordOfFour(Memory(f, items));
    hide Memory, ByteAt, StoredCount, FromLittleEndian, CountKnown, ShapedItems;
  }

  lemma {:induction false} WordOfFour(m: seq<byte>)
    requires |m| >= 4
    ensures FromLittleEndian(m[..4]) == m[0] as int + 0x100 * m[1] as int + 0x1_0000 * m[2] as int + 0x100_0000 * m[3] as int
  {
    var s := m[..4];
    FirstOf(s);
    FirstOf(s[1..]);
    FirstOf(s[2..]);
    FirstOf(s[3..]);
    assert s[1..][1..] == s[2..] && s[2..][1..] == s[3..] && s[3..][1..] == [];
    assert FromLittleEndian([]) == 0;
  }

  lemma {:induction false} FirstOf(s: seq<byte>)
    requires s != []
    ensures FromLittleEndian(s) == s[0] as int + 256 * FromLittleEndian(s[1..])
  {
  }

  // ----- what is refused

  /** The value does not fit its member. */
  predicate Oversized(f: Field, v: Value) {
    v.Blob? && (if f.ltype.BytesType? then |v.b| + 4 > f.dataSize else if f.ltype.StringType? then |v.b| > f.dataSize
                else f.ltype.FixedLengthBytes? && |v.b| != f.dataSize)
  }

  /** More elements than the array has room for, or a present value that does not fit. */
  predicate Overlong(f: Field, slot: Slot) {
    match slot
    case Array(items) => |items| > f.arraySize || exists i :: 0 <= i < |items| && Oversized(f, items[i])
    case Flagged(has, v) => has && Oversized(f, v)
    case Union(which, v) => which == f.tag && Oversized(f, v)
    case Single(v) => f.htype.Required? && Oversized(f, v)
  }

  lemma {:induction false} OversizedRefused(f: Field, v: Value)
    requires Oversized(f, v)
    ensures EncodeKeyed(f, v) == None
  {
  }

  /** A number is written exactly when it is in range of its member, and a byte string exactly when it is not
      oversized: a string that fills its buffer is written without a terminator. */
  lemma {:induction false} ValueAccepted(f: Field, v: Value)
    requires if f.Packable() then v.Num? else v.Blob? && !f.ltype.SubMessage?
    ensures EncodeKeyed(f, v).Some? <==> if f.Packable() then Contents.Fits(f, v) else !Oversized(f, v)
  {
    hide Key;
    if f.Packable() { RangeAsHeld(f, v.n); }
  }

  lemma {:induction false} RangeAsHeld(f: Field, n: int)
    requires f.Packable()
    ensures Holds(f, n) <==> Contents.Fits(f, Num(n))
  {
  }

  lemma {:induction false} OversizedUnpacked(f: Field, v: Value)
    requires Oversized(f, v)
    ensures !f.Packable()
  {
  }

  lemma {:induction false} ItemRefused(f: Field, items: seq<Value>, i: nat)
    requires i < |items| && Oversized(f, items[i])
    ensures EncodeUnpacked(f, items) == None
    decreases |items|
  {
    hide EncodeKeyed;
    if i == 0 { OversizedRefused(f, items[0]); } else { ItemRefused(f, items[1..], i - 1); }
  }

  lemma {:induction false} SlotRefused(f: Field, slot: Slot)
    requires Overlong(f, slot)
    ensures EncodeSlot(f, slot) == None
  {
    hide EncodeKeyed, EncodeUnpacked, Oversized;
    match slot
    case Array(items) =>
      if |items| <= f.arraySize {
        var i :| 0 <= i < |items| && Oversized(f, items[i]);
        OversizedUnpacked(f, items[i]);
        ItemRefused(f, items, i);
      }
    case Flagged(_, v) => if Oversized(f, v) { OversizedRefused(f, v); }
    case Union(_, v) => if Oversized(f, v) { OversizedRefused(f, v); }
    case Single(v) => if Oversized(f, v) { OversizedRefused(f, v); }
  }

  lemma {:induction false} FieldRefused(fields: seq<Field>, m: seq<Slot>, i: nat, k: nat)
    requires i <= k < |fields| == |m| && EncodeSlot(fields[k], m[Home(fields, k)]) == None
    ensures EncodeFrom(fields, m, i) == None
    decreases k - i
  {
    hide EncodeSlot;
    if i < k { FieldRefused(fields, m, i + 1, k); }
  }

  /** A message with such a member is not encoded at all. */
  lemma {:induction false} OverlongRefused(fields: seq<Field>, m: seq<Slot>, k: nat)
    requires k < |fields| == |m| && Overlong(fields[k], m[Home(fields, k)])
    ensures Encode(fields, m) == None
  {
    SlotRefused(fields[k], m[Home(fields, k)]);
    FieldRefused(fields, m, 0, k);
  }

  /** A string is cut at its first NUL. */
  lemma {:induction false} StringCut(b: seq<byte>, n: nat)
    requires n <= |b| && 0 !in b[..n] && (n < |b| ==> b[n] == 0)
    ensures CString(b) == b[..n]
  {
    if n > 0 {
      assert b[..n][0] == b[0];
      assert b[1..][..n - 1] == b[..n][1..];
      StringCut(b[1..], n - 1);
      assert b[..n] == [b[0]] + b[1..][..n - 1];
    }
  }
}
