/** What a decoded message holds: only what its members have room for, full arrays, defaults where nothing came. */
module Contents {
  import opened Bits
  import opened Descriptor
  import opened Wire
  import opened Decoder
  import opened Streams
  import opened RequiredFields
  import Varint

  // ----- numbers and byte strings

  /** 2^(8k - 1), for the sizes of numbers. */
  function Half(k: nat): int {
    if k == 1 then 0x80 else if k == 2 then 0x8000 else if k == 4 then 0x8000_0000 else 0x8000_0000_0000_0000
  }

  /** The number a varint stands for, by the kind of its field: zig-zag coded, unsigned, or in two's complement, of
      which members narrower than 64 bits look at the low 32 bits only. */
  function Meaning(f: Field, u: nat): int {
    if f.ltype.SVarintType? then (if u % 2 == 0 then u / 2 else -((u + 1) / 2))
    else if f.ltype.UVarintType? then u
    else if f.dataSize == 8 then (if u < 0x8000_0000_0000_0000 then u else u - 0x1_0000_0000_0000_0000)
    else var low := u % 0x1_0000_0000; if low < 0x8000_0000 then low else low - 0x1_0000_0000
  }

  predicate InRange(f: Field, n: int) {
    && (f.dataSize == 1 || f.dataSize == 2 || f.dataSize == 4 || f.dataSize == 8)
    && if f.ltype.UVarintType? then 0 <= n < 2 * Half(f.dataSize) else -Half(f.dataSize) <= n < Half(f.dataSize)
  }

  /** A varint is accepted exactly when what it stands for fits its member, and stored as just that. */
  lemma {:induction false} NumberExactly(f: Field, u: nat)
    requires u < TWO_64 && (f.ltype.VarintType? || f.ltype.UVarintType? || f.ltype.SVarintType?)
    ensures DecodeNumber(f, Word(u)) == if InRange(f, Meaning(f, u)) then Some(Num(Meaning(f, u))) else None
  {
    if NumericSize(f.dataSize) {
      if f.ltype.SVarintType? { UnZigZagMeans(u); }
      var n := Meaning(f, u);
      if f.ltype.UVarintType? { UnsignedFits(n, f.dataSize); } else { SignedFits(n, f.dataSize); }
      hide ToSigned, UnZigZag, Span;
      SignedMeans(u);
    }
  }

  lemma {:induction false} UnZigZagMeans(u: nat)
    requires u < TWO_64
    ensures UnZigZag(u) == if u % 2 == 0 then u / 2 else -((u + 1) / 2)
  {
  }

  lemma {:induction false} SignedMeans(u: nat)
    requires u < TWO_64
    ensures ToSigned(u, TWO_64) == if u < 0x8000_0000_0000_0000 then u else u - 0x1_0000_0000_0000_0000
    ensures ToSigned(u, TWO_32) == var low := u % 0x1_0000_0000; if low < 0x8000_0000 then low else low - 0x1_0000_0000
  {
  }

  lemma {:induction false} UnsignedFits(n: int, k: nat)
    requires NumericSize(k) && 0 <= n
    ensures n % Span(k) == n <==> n < 2 * Half(k)
  {
  }

  lemma {:induction false} SignedFits(n: int, k: nat)
    requires NumericSize(k)
    ensures ToSigned(n, Span(k)) == n <==> -Half(k) <= n < Half(k)
  {
    var m := Span(k);
    assert m == 2 * Half(k);
    if -Half(k) <= n < 0 { BelowZero(n, m); }
    hide Span, Half, NumericSize;
    var low := n % m;
    assert 0 <= low < m && m / 2 == Half(k);
    if 0 <= n < Half(k) { Small(n, m); }
  }

  lemma {:induction false} BelowZero(n: int, m: int)
    requires -m <= n < 0
    ensures n % m == n + m
  {
    assert n / m == -1;
  }

  lemma {:induction false} Small(n: nat, m: nat)
    requires n < m
    ensures n % m == n
  {
  }

  /** A payload is accepted exactly when it fits its member: bytes with their four-byte length, a string with its
      terminator, fixed-length bytes exactly, except that an empty payload stands for zeros. */
  lemma {:induction false} BlobExactly(f: Field, b: seq<byte>)
    ensures f.ltype.BytesType? ==> DecodeBlob(f, b) == if |b| + 4 <= f.dataSize then Some(Blob(b)) else None
    ensures f.ltype.StringType? ==> DecodeBlob(f, b) == if |b| + 1 <= f.dataSize then Some(Blob(b)) else None
    ensures f.ltype.FixedLengthBytes? ==>
              DecodeBlob(f, b) ==
              if b == [] then Some(Blob(seq(f.dataSize, _ => 0))) else if |b| == f.dataSize then Some(Blob(b)) else None
  {
    if f.ltype.StringType? && |b| >= TWO_32 - 1 { WrapsShort(|b|); }
  }

  lemma {:induction false} WrapsShort(n: nat)
    requires n >= TWO_32 - 1
    ensures (n + 1) % TWO_32 < n
  {
  }

  // ----- what fits

  /** The member has room for the value. */
  predicate Fits(f: Field, v: Value)
    decreases f, 0
  {
    match f.ltype
    case SubMessage(sub) => v.Msg? && AllFit(sub, v.slots)
    case BytesType => v.Blob? && |v.b| + 4 <= f.dataSize
    case StringType => v.Blob? && |v.b| + 1 <= f.dataSize
    case FixedLengthBytes => v.Blob? && |v.b| == f.dataSize
    case Fixed32Type => v.Num? && 0 <= v.n < 0x1_0000_0000
    case Fixed64Type => v.Num? && 0 <= v.n < 0x1_0000_0000_0000_0000
    case _ => v.Num? && InRange(f, v.n)
  }

  predicate ItemsFit(f: Field, items: seq<Value>)
    decreases f, 1
  {
    forall i :: 0 <= i < |items| ==> Fits(f, items[i])
  }

  /** Slot h fits its field: in an array also the number of elements, in a union the member its tag names. */
  predicate SlotFits(fields: seq<Field>, h: nat, slot: Slot)
    requires h < |fields|
    decreases fields, 0
  {
    match slot
    case Single(v) => Fits(fields[h], v)
    case Flagged(_, v) => Fits(fields[h], v)
    case Array(items) => |items| <= fields[h].arraySize && ItemsFit(fields[h], items)
    case Union(which, v) => which != 0 ==>
      exists i :: 0 <= i < |fields| && Home(fields, i) == h && UnionFits(fields[i], which, v)
  }

  predicate UnionFits(f: Field, which: nat, v: Value)
    decreases f, 1
  {
    f.tag == which && f.htype.OneOf? && Fits(f, v)
  }

  predicate AllFit(fields: seq<Field>, slots: seq<Slot>)
    decreases fields, 1
  {
    |slots| == |fields| && forall h :: 0 <= h < |fields| ==> SlotFits(fields, h, slots[h])
  }

  /** Members have room for their defaults, at every level. */
  predicate DefaultsFit(f: Field)
    decreases f
  {
    Fits(f, DefaultValue(f)) && (f.ltype.SubMessage? ==> AllDefaultsFit(f.ltype.sub))
  }

  predicate AllDefaultsFit(fields: seq<Field>)
    decreases fields
  {
    forall i :: 0 <= i < |fields| ==> DefaultsFit(fields[i])
  }

  lemma {:induction false} NumberFits(f: Field, raw: Raw)
    requires f.Packable() && ReadAs(f, raw) && DecodeNumber(f, raw).Some?
    ensures Fits(f, DecodeNumber(f, raw).value)
  {
    match raw
    case Word(u) => NumberExactly(f, u);
    case Octets(b) =>
      Varint.Pow2_32();
      Varint.Pow2_64();
      WordBound(b);
    hide NumberFromVarint, FromLittleEndian, Pow2;
  }

  lemma {:induction false} WordBound(b: seq<byte>)
    ensures FromLittleEndian(b) < Pow2(8 * |b|)
  {
    if b != [] {
      WordBound(b[1..]);
      Pow2Add(8, 8 * (|b| - 1));
      PowersOfTwo();
    }
  }

  /** The payload has the shape the field decoder reads. */
  predicate ReadAs(f: Field, raw: Raw) {
    match NaturalShape(f.ltype)
    case Word64 => raw.Word? && raw.w < TWO_64
    case Width(k) => raw.Octets? && |raw.b| == k
    case _ => raw.Octets?
  }

  lemma {:induction false} RawReadAs(f: Field, s: seq<byte>)
    requires ReadRaw(NaturalShape(f.ltype), s).Good?
    ensures ReadAs(f, ReadRaw(NaturalShape(f.ltype), s).value)
  {
    hide Varint.Denoted, Varint.Extent, ReadDelimited;
  }

  lemma {:induction false} PackedFits(f: Field, items: seq<Value>, b: seq<byte>)
    requires f.Packable() && ItemsFit(f, items) && |items| <= f.arraySize && DecodePacked(f, items, b).Some?
    ensures var r := DecodePacked(f, items, b).value; ItemsFit(f, r) && |r| <= f.arraySize
    decreases |b|
  {
    if b == [] || |items| >= f.arraySize { return; }
    hide DecodeNumber, Fits, ReadRaw, NaturalShape;
    PackedStep(f, items, b);
    var r := ReadRaw(NaturalShape(f.ltype), b);
    if r.Good? && DecodeNumber(f, r.value).Some? && r.len > 0 {
      RawReadAs(f, b);
      NumberFits(f, r.value);
      PackedFits(f, items + [DecodeNumber(f, r.value).value], b[r.len..]);
    }
  }

  lemma {:induction false} BlobFits(f: Field, b: seq<byte>)
    requires !f.Packable() && !f.ltype.SubMessage? && DecodeBlob(f, b).Some?
    ensures Fits(f, DecodeBlob(f, b).value)
  {
    BlobExactly(f, b);
    hide DecodeBlob;
  }

  lemma {:induction false} ValueFits(f: Field, old_: Value, raw: Raw)
    requires DefaultsFit(f) && ReadAs(f, raw) && DecodeValue(f, old_, raw).Some? && (f.ltype.SubMessage? ==> Fits(f, old_))
    ensures Fits(f, DecodeValue(f, old_, raw).value)
    decreases f, 0
  {
    if f.ltype.SubMessage? {
      MessageFits(f.ltype.sub, old_.slots, raw.b);
    } else if f.Packable() {
      NumberFits(f, raw);
    } else {
      BlobFits(f, raw.b);
    }
  }

  /** The record was read for its field. */
  predicate ShapedRecord(fields: seq<Field>, r: Record) {
    match Find(fields, r.tag)
    case None => true
    case Some(i) => if Packed(fields[i], r.wt) then r.raw.Octets? else ReadAs(fields[i], r.raw)
  }

  lemma {:induction false} SlotFitsAfter(fields: seq<Field>, i: nat, slot: Slot, wt: nat, raw: Raw)
    requires i < |fields| && DefaultsFit(fields[i]) && SlotFits(fields, Home(fields, i), slot)
    requires if Packed(fields[i], wt) then raw.Octets? else ReadAs(fields[i], raw)
    requires DecodeSlot(fields[i], slot, wt, raw).Some?
    ensures SlotFits(fields, Home(fields, i), DecodeSlot(fields[i], slot, wt, raw).value)
    decreases fields, 0
  {
    var f := fields[i];
    HomeKind(fields, i);
    hide DecodeValue, Fits, ReadAs, DefaultValue, Home;
    match slot
    case Single(v) => if !f.htype.OneOf? && !f.htype.Repeated? { ValueFits(f, v, raw); }
    case Flagged(_, v) => if f.htype.Optional? { ValueFits(f, v, raw); }
    case Array(items) =>
      if Packed(f, wt) { PackedFits(f, items, raw.b); } else { ValueFits(f, DefaultValue(f), raw); }
    case Union(_, _) =>
      ValueFits(f, DefaultValue(f), raw);
      assert UnionFits(f, f.tag, DecodeValue(f, DefaultValue(f), raw).value);
  }

  lemma {:induction false} RecordFits(fields: seq<Field>, st: State, r: Record)
    requires AllDefaultsFit(fields) && AllFit(fields, st.slots) && ShapedRecord(fields, r) && ApplyRecord(fields, st, r).Some?
    ensures AllFit(fields, ApplyRecord(fields, st, r).value.slots)
    decreases fields, 1
  {
    hide DecodeSlot, DefaultsFit, SlotFits, ReadAs;
    match Find(fields, r.tag)
    case None =>
    case Some(i) =>
      var st' := EnterField(fields, st, i).value;
      EmptyFits(fields, i);
      HomeKind(fields, i);
      assert AllFit(fields, st'.slots);
      assert DefaultsFit(fields[i]);
      SlotFitsAfter(fields, i, st'.slots[Home(fields, i)], r.wt, r.raw);
  }

  lemma {:induction false} EmptyFits(fields: seq<Field>, i: nat)
    requires i < |fields|
    ensures SlotFits(fields, i, Array([]))
  {
  }

  lemma {:induction false} RecordsFit(fields: seq<Field>, st: State, rs: seq<Record>)
    requires AllDefaultsFit(fields) && AllFit(fields, st.slots) && ApplyAll(fields, st, rs).Some?
    requires forall k :: 0 <= k < |rs| ==> ShapedRecord(fields, rs[k])
    ensures AllFit(fields, ApplyAll(fields, st, rs).value.slots)
    decreases fields, 2, |rs|
  {
    hide ApplyRecord, AllFit, ShapedRecord, AllDefaultsFit;
    if rs != [] {
      RecordFits(fields, st, rs[0]);
      RecordsFit(fields, ApplyRecord(fields, st, rs[0]).value, rs[1..]);
    }
  }

  lemma {:induction false} LexShaped(fields: seq<Field>, s: seq<byte>)
    requires Lex(fields, s).Some?
    ensures var rs := Lex(fields, s).value; forall k :: 0 <= k < |rs| ==> ShapedRecord(fields, rs[k])
    decreases |s|
  {
    if s == [] || !ReadRecord(fields, s).Item? { return; }
    var r := ReadRecord(fields, s);
    RecordShaped(fields, s);
    LexShaped(fields, s[r.len..]);
    hide ReadRecord, ShapedRecord;
  }

  lemma {:induction false} RecordShaped(fields: seq<Field>, s: seq<byte>)
    requires ReadRecord(fields, s).Item?
    ensures ShapedRecord(fields, ReadRecord(fields, s).rec)
  {
    var k := Varint.Read32(s);
    Varint.Read32Extent(s);
    Varint.ExtentBound(s);
    var i := Find(fields, k.value / 8);
    hide Varint.Read32, ReadAs, Find;
    if i.Some? && !Packed(fields[i.value], k.value % 8) { RawReadAs(fields[i.value], s[k.len..]); }
  }

  /** What is decoded fits: from contents that fit, every accepted byte string leads to contents that fit, at
      every level - numbers in range, no byte string or array longer than its member. */
  lemma {:induction false} MessageFits(fields: seq<Field>, m: seq<Slot>, s: seq<byte>)
    requires AllDefaultsFit(fields) && AllFit(fields, m) && DecodeInto(fields, m, s).Some?
    ensures AllFit(fields, DecodeInto(fields, m, s).value)
    decreases fields, 3
  {
    LexShaped(fields, s);
    hide ApplyAll, Lex, AllFit, AllDefaultsFit;
    RecordsFit(fields, State(m, None, {}), Lex(fields, s).value);
  }

  /** In particular from scratch. */
  lemma {:induction false} DecodedFits(fields: seq<Field>, s: seq<byte>)
    requires AllDefaultsFit(fields) && Decode(fields, s).Some?
    ensures AllFit(fields, Decode(fields, s).value)
  {
    forall h | 0 <= h < |fields|
      ensures SlotFits(fields, h, DefaultSlot(fields[h]))
    {
      assert DefaultsFit(fields[h]);
      hide Fits;
    }
    hide DecodeInto, AllDefaultsFit, DefaultSlot;
    MessageFits(fields, Defaults(fields), s);
  }

  // ----- arrays without a count

  /** Every fixed-count array met so far is full, but the one being filled. */
  predicate FullButRun(fields: seq<Field>, st: State) {
    && (st.run.Some? ==> st.run.value < |fields| && fields[st.run.value].FixedCount())
    && forall i :: 0 <= i < |fields| && fields[i].FixedCount() && i in st.seen ==> st.run == Some(i) || Filled(fields, st, i)
  }

  lemma {:induction false} RecordKeepsFull(fields: seq<Field>, st: State, r: Record)
    requires FullButRun(fields, st) && ApplyRecord(fields, st, r).Some?
    ensures FullButRun(fields, ApplyRecord(fields, st, r).value)
  {
    hide DecodeSlot, Releasable;
    match Find(fields, r.tag)
    case None =>
    case Some(i) =>
      HomeKind(fields, i);
      var st' := ApplyRecord(fields, st, r).value;
      if fields[i].FixedCount() && st.run.Some? { assert st.run != Some(i) ==> RunComplete(fields, st); }
      forall j | 0 <= j < |fields| && fields[j].FixedCount() && j in st'.seen
        ensures st'.run == Some(j) || Filled(fields, st', j)
      {
        HomeKind(fields, i);
        if j != i {
          assert j in st.seen;
          assert Home(fields, i) != j by { HomeFixed(fields, i); HomeKind(fields, j); UnionApart(fields, i, j); }
        }
      }
  }

  /** A fixed-count array shares its storage with nothing. */
  lemma {:induction false} UnionApart(fields: seq<Field>, i: nat, j: nat)
    requires i < |fields| && j < |fields| && i != j && fields[j].FixedCount()
    ensures Home(fields, i) != j
  {
    HomeKind(fields, i);
  }

  lemma {:induction false} RecordsKeepFull(fields: seq<Field>, st: State, rs: seq<Record>)
    requires FullButRun(fields, st) && ApplyAll(fields, st, rs).Some?
    ensures FullButRun(fields, ApplyAll(fields, st, rs).value)
    decreases |rs|
  {
    hide FullButRun, ApplyRecord;
    if rs != [] {
      RecordKeepsFull(fields, st, rs[0]);
      RecordsKeepFull(fields, ApplyRecord(fields, st, rs[0]).value, rs[1..]);
    }
  }

  /** In a decoded message a fixed-count array of which anything came is full. */
  lemma {:induction false} ArraysFull(fields: seq<Field>, m: seq<Slot>, s: seq<byte>, i: nat)
    requires DistinctTags(fields) && DecodeInto(fields, m, s).Some? && i < |fields| && fields[i].FixedCount()
    ensures Lex(fields, s).Some? && |DecodeInto(fields, m, s).value| == |m|
    ensures Occurs(Lex(fields, s).value, fields[i].tag) ==>
              i < |m| && DecodeInto(fields, m, s).value[i].Array? && |DecodeInto(fields, m, s).value[i].items| == fields[i].arraySize
  {
    var start, rs := State(m, None, {}), Lex(fields, s).value;
    RecordsKeepFull(fields, start, rs);
    MetOccurs(fields, start, rs, i);
    SlotsKept(fields, start, rs);
    hide ApplyAll, Lex, Occurs, RequiredSeen;
  }

  // ----- what is not touched

  /** The record is for a field whose storage is slot h. */
  predicate Touches(fields: seq<Field>, r: Record, h: nat) {
    exists i :: 0 <= i < |fields| && fields[i].tag == r.tag && Home(fields, i) == h
  }

  /** A member stays as it was unless some record is for it, or for another member of its union. */
  lemma {:induction false} Untouched(fields: seq<Field>, st: State, rs: seq<Record>, h: nat)
    requires ApplyAll(fields, st, rs).Some? && h < |st.slots| && forall k :: 0 <= k < |rs| ==> !Touches(fields, rs[k], h)
    ensures |ApplyAll(fields, st, rs).value.slots| == |st.slots| && ApplyAll(fields, st, rs).value.slots[h] == st.slots[h]
    decreases |rs|
  {
    hide DecodeSlot, Releasable, Home;
    if rs != [] {
      var i := Find(fields, rs[0].tag);
      assert !Touches(fields, rs[0], h);
      if i.Some? { HomeKind(fields, i.value); }
      Untouched(fields, ApplyRecord(fields, st, rs[0]).value, rs[1..], h);
    }
  }

  lemma {:induction false} DecodedUntouched(fields: seq<Field>, m: seq<Slot>, s: seq<byte>, h: nat)
    requires DecodeInto(fields, m, s).Some? && h < |m|
    requires forall k :: Lex(fields, s).Some? && 0 <= k < |Lex(fields, s).value| ==> !Touches(fields, Lex(fields, s).value[k], h)
    ensures |DecodeInto(fields, m, s).value| == |m| && DecodeInto(fields, m, s).value[h] == m[h]
  {
    hide ApplyAll, Lex, Touches;
    Untouched(fields, State(m, None, {}), Lex(fields, s).value, h);
  }

  /** A used union is replaced like an empty one if its tag names a field, and cannot be replaced otherwise. */
  lemma {:induction false} UnionReplaced(fields: seq<Field>, st: State, r: Record, i: nat)
    requires Find(fields, r.tag) == Some(i) && fields[i].htype.OneOf?
    requires Home(fields, i) < |st.slots| && st.slots[Home(fields, i)].Union? && st.slots[Home(fields, i)].which != 0
    ensures var h := Home(fields, i);
            ApplyRecord(fields, st, r) ==
            if exists j :: 0 <= j < |fields| && fields[j].tag == st.slots[h].which
            then ApplyRecord(fields, st.(slots := st.slots[h := NOTHING]), r) else None
  {
    hide DecodeValue, DefaultValue;
    var h := Home(fields, i);
    var cleared := st.(slots := st.slots[h := NOTHING]);
    assert EnterField(fields, st, i) == Some(st) && EnterField(fields, cleared, i) == Some(cleared);
    assert DecodeSlot(fields[i], st.slots[h], r.wt, r.raw) == DecodeSlot(fields[i], NOTHING, r.wt, r.raw);
    hide DecodeSlot;
    var slot := DecodeSlot(fields[i], NOTHING, r.wt, r.raw);
    if slot.Some? { assert cleared.slots[h := slot.value] == st.slots[h := slot.value]; }
  }

  // ----- an empty message

  /** Nothing, in a member of the type. */
  function Blank(f: Field): Value {
    if f.ltype.BytesType? || f.ltype.StringType? then Blob([])
    else if f.ltype.FixedLengthBytes? then Blob(seq(f.dataSize, _ => 0))
    else Num(0)
  }

  /** What a member starts from: its initial value if the descriptor has one, otherwise nothing. */
  predicate Initial(f: Field, v: Value)
    decreases f, 0
  {
    if f.ltype.SubMessage? then v.Msg? && AllInitial(f.ltype.sub, v.slots)
    else v == if f.initial.Some? then f.initial.value else Blank(f)
  }

  /** Optional members are absent, arrays empty, unions unused. */
  predicate InitialSlot(f: Field, slot: Slot)
    decreases f, 1
  {
    match f.htype
    case Required => slot.Single? && Initial(f, slot.v)
    case Optional => if f.sizeOffset != 0 then slot.Flagged? && !slot.has && Initial(f, slot.v) else slot.Single? && Initial(f, slot.v)
    case Repeated => slot == Array([])
    case OneOf => slot.Union? && slot.which == 0
  }

  predicate AllInitial(fields: seq<Field>, slots: seq<Slot>)
    decreases fields
  {
    |slots| == |fields| && forall i :: 0 <= i < |fields| ==> InitialSlot(fields[i], slots[i])
  }

  lemma {:induction false} DefaultInitial(f: Field)
    ensures Initial(f, DefaultValue(f))
    decreases f, 0
  {
    if f.ltype.SubMessage? { DefaultsInitial(f.ltype.sub); }
  }

  lemma {:induction false} DefaultsInitial(fields: seq<Field>)
    ensures AllInitial(fields, Defaults(fields))
    decreases fields
  {
    forall i | 0 <= i < |fields|
      ensures InitialSlot(fields[i], DefaultSlot(fields[i]))
    {
      DefaultInitial(fields[i]);
    }
  }

  /** Nothing at all decodes exactly when none of the first 64 required fields is asked for, and then to a
      message of initial values. */
  lemma {:induction false} EmptyMessage(fields: seq<Field>)
    requires DistinctTags(fields)
    ensures Decode(fields, []).Some? <==> forall i: nat :: !Checked(fields, i)
    ensures Decode(fields, []).Some? ==> AllInitial(fields, Decode(fields, []).value)
  {
    hide Checked, DefaultSlot, AllInitial;
    assert Lex(fields, []) == Some([]);
    assert forall i: nat :: Checked(fields, i) ==> i < |fields| && !Occurs([], fields[i].tag) by { NothingOccurs(fields); }
    DecodesExactly(fields, Defaults(fields), []);
    DefaultsInitial(fields);
  }

  lemma {:induction false} NothingOccurs(fields: seq<Field>)
    ensures forall i: nat :: Checked(fields, i) ==> i < |fields| && !Occurs([], fields[i].tag)
  {
  }
}
