/** How the elements of a repeated field are split into packed runs does not matter. */
module Packing {
  import opened Bits
  import opened Descriptor
  import opened Wire
  import opened Encoder
  import opened Decoder
  import opened RoundTrip

  /** A record carrying elements: a packed run, or a single unpacked one. */
  datatype Chunk = PackedRun(items: seq<Value>) | Lone(v: Value)

  function Elements(c: Chunk): seq<Value> {
    match c case PackedRun(items) => items case Lone(v) => [v]
  }

  function Flatten(cs: seq<Chunk>): seq<Value> {
    if cs == [] then [] else Elements(cs[0]) + Flatten(cs[1..])
  }

  /** The bytes of one chunk, for elements the member can hold. */
  function ChunkBytes(f: Field, c: Chunk): seq<byte>
    requires f.Packable() && NormalItems(f, Elements(c))
  {
    match c
    case PackedRun(items) => Key(f.tag, WT_STRING) + Delimit(ItemBytes(f, items))
    case Lone(v) =>
      assert NormalValue(f, Elements(c)[0]);
      Key(f.tag, FieldWireType(f.ltype)) + ItemBytes(f, [v])
  }

  function ItemBytes(f: Field, items: seq<Value>): seq<byte>
    requires f.Packable() && NormalItems(f, items)
  {
    if items == [] then []
    else assert NormalValue(f, items[0]); EncodeNumber(f, items[0].n) + ItemBytes(f, items[1..])
  }

  function ChunksBytes(f: Field, cs: seq<Chunk>): seq<byte>
    requires f.Packable() && NormalItems(f, Flatten(cs))
  {
    if cs == [] then []
    else
      FlattenNormal(f, cs);
      ChunkBytes(f, cs[0]) + ChunksBytes(f, cs[1..])
  }

  /** A run is short enough for the 32-bit length the decoder reads. */
  predicate ChunkReadable(f: Field, c: Chunk)
    requires f.Packable() && NormalItems(f, Elements(c))
  {
    c.PackedRun? ==> |ItemBytes(f, c.items)| < TWO_32
  }

  predicate ChunksReadable(f: Field, cs: seq<Chunk>)
    requires f.Packable() && NormalItems(f, Flatten(cs))
  {
    cs == [] ||
    (FlattenNormal(f, cs);
     ChunkReadable(f, cs[0]) && ChunksReadable(f, cs[1..]))
  }

  lemma {:induction false} ItemsSplit(f: Field, a: seq<Value>, b: seq<Value>)
    requires NormalItems(f, a + b)
    ensures NormalItems(f, a) && NormalItems(f, b)
  {
    hide NormalValue;
    var all := a + b;
    assert all[..|a|] == a && all[|a|..] == b;
  }

  lemma {:induction false} FlattenNormal(f: Field, cs: seq<Chunk>)
    requires cs != [] && NormalItems(f, Flatten(cs))
    ensures NormalItems(f, Elements(cs[0])) && NormalItems(f, Flatten(cs[1..]))
  {
    hide NormalValue, NormalItems;
    ItemsSplit(f, Elements(cs[0]), Flatten(cs[1..]));
  }

  lemma {:induction false} ItemBytesEncode(f: Field, items: seq<Value>)
    requires f.Packable() && NormalItems(f, items)
    ensures EncodeItems(f, items) == Some(ItemBytes(f, items))
  {
    if items != [] { ItemBytesEncode(f, items[1..]); }
  }

  /** A packed run that does not fit is refused. */
  lemma {:induction false} PackedOverflow(f: Field, prefix: seq<Value>, items: seq<Value>)
    requires f.Packable() && NormalItems(f, items)
    requires |prefix| <= f.arraySize < |prefix| + |items|
    ensures DecodePacked(f, prefix, ItemBytes(f, items)) == None
    decreases |items|
  {
    var t := ItemBytes(f, items[1..]);
    var raw := ScalarRead(f, items[0], t);
    var e := EncodeNumber(f, items[0].n);
    assert ItemBytes(f, items) == e + t;
    assert (e + t)[|e|..] == t;
    if |prefix| < f.arraySize { PackedOverflow(f, prefix + [items[0]], items[1..]); }
  }

  function Joined(es: seq<seq<byte>>): seq<byte> {
    if es == [] then [] else es[0] + Joined(es[1..])
  }

  /** One element, exactly, and its value. */
  predicate OneElement(f: Field, e: seq<byte>, v: Value) {
    var r := ReadRaw(NaturalShape(f.ltype), e);
    r.Good? && r.len == |e| && DecodeNumber(f, r.value) == Some(v)
  }

  /** A packed run that is accepted is its elements, and nothing else. */
  lemma {:induction false} PackedSplits(f: Field, prefix: seq<Value>, b: seq<byte>) returns (es: seq<seq<byte>>)
    requires f.Packable() && |prefix| <= f.arraySize && DecodePacked(f, prefix, b).Some?
    ensures var r := DecodePacked(f, prefix, b).value;
            && |prefix| + |es| == |r| <= f.arraySize && prefix == r[..|prefix|] && b == Joined(es)
            && forall i :: 0 <= i < |es| ==> OneElement(f, es[i], r[|prefix| + i])
    decreases |b|
  {
    if b == [] {
      es := [];
      return;
    }
    if |prefix| >= f.arraySize { return; }
    hide DecodeNumber, ReadRaw, NaturalShape, Joined;
    PackedStep(f, prefix, b);
    var r := ReadRaw(NaturalShape(f.ltype), b);
    if r.Bad? || DecodeNumber(f, r.value).None? || r.len == 0 { return; }
    var v := DecodeNumber(f, r.value).value;
    var rest := PackedSplits(f, prefix + [v], b[r.len..]);
    var e := b[..r.len];
    FirstElement(f, b, e);
    es := [e] + rest;
    assert b == e + b[r.len..];
    OneMore(f, prefix, v, e, rest, DecodePacked(f, prefix, b).value);
  }

  lemma {:induction false} OneMore(f: Field, prefix: seq<Value>, v: Value, e: seq<byte>, rest: seq<seq<byte>>, all: seq<Value>)
    requires OneElement(f, e, v) && |prefix| + 1 + |rest| == |all| && prefix + [v] == all[..|prefix| + 1]
    requires forall i :: 0 <= i < |rest| ==> OneElement(f, rest[i], all[|prefix| + 1 + i])
    ensures prefix == all[..|prefix|] && Joined([e] + rest) == e + Joined(rest)
    ensures forall i :: 0 <= i < |rest| + 1 ==> OneElement(f, ([e] + rest)[i], all[|prefix| + i])
  {
    hide OneElement, Joined;
    JoinedMore(e, rest);
    assert all[|prefix|] == (prefix + [v])[|prefix|] == v;
    assert prefix == (prefix + [v])[..|prefix|];
    forall i | 0 <= i < |rest| + 1 ensures OneElement(f, ([e] + rest)[i], all[|prefix| + i]) {
      if i > 0 { assert ([e] + rest)[i] == rest[i - 1]; }
    }
  }

  lemma {:induction false} JoinedMore(e: seq<byte>, rest: seq<seq<byte>>)
    ensures Joined([e] + rest) == e + Joined(rest)
  {
    assert ([e] + rest)[1..] == rest;
  }

  lemma {:induction false} FirstElement(f: Field, b: seq<byte>, e: seq<byte>)
    requires var r := ReadRaw(NaturalShape(f.ltype), b); r.Good? && e == b[..r.len]
    ensures ReadRaw(NaturalShape(f.ltype), e) == ReadRaw(NaturalShape(f.ltype), b)
  {
    assert e == e[..ReadRaw(NaturalShape(f.ltype), b).len];
    ReadRawLocal(NaturalShape(f.ltype), b, e);
  }

  /** What decoding some elements should do to the array. */
  function Appended(f: Field, prefix: seq<Value>, items: seq<Value>): Option<Slot> {
    if |prefix| + |items| <= f.arraySize then Some(Array(prefix + items)) else None
  }

  lemma {:induction false} PackedChunkRead(fields: seq<Field>, k: nat, items: seq<Value>, prefix: seq<Value>, t: seq<byte>)
    requires k < |fields| && WellFormed(fields) && fields[k].htype.Repeated? && fields[k].Packable()
    requires NormalItems(fields[k], items) && |ItemBytes(fields[k], items)| < TWO_32
    requires |prefix| <= fields[k].arraySize
    ensures var e := Key(fields[k].tag, WT_STRING) + Delimit(ItemBytes(fields[k], items));
            ReadRecord(fields, e + t) == Item(Record(fields[k].tag, WT_STRING, Octets(ItemBytes(fields[k], items))), |e|)
    ensures DecodeSlot(fields[k], Array(prefix), WT_STRING, Octets(ItemBytes(fields[k], items)))
            == Appended(fields[k], prefix, items)
  {
    var f := fields[k];
    assert FieldOk(f);
    var b := ItemBytes(f, items);
    DelimitRead(b, t);
    hide DecodePacked, ReadRecord, ItemBytes, Delimit, Key, NormalItems, WellFormed, FieldOk, Find, NormalValue;
    KeyRead(fields, k, WT_STRING, Delimit(b), Octets(b), t);
    if |prefix| + |items| <= f.arraySize {
      PackedRead(f, prefix, items);
      ItemBytesEncode(f, items);
    } else {
      PackedOverflow(f, prefix, items);
    }
  }

  lemma {:induction false} LoneChunkRead(fields: seq<Field>, k: nat, v: Value, prefix: seq<Value>, t: seq<byte>) returns (r: Record)
    requires k < |fields| && WellFormed(fields) && fields[k].htype.Repeated? && fields[k].Packable()
    requires NormalItems(fields[k], [v]) && |prefix| <= fields[k].arraySize
    ensures var e := Key(fields[k].tag, FieldWireType(fields[k].ltype)) + ItemBytes(fields[k], [v]);
            ReadRecord(fields, e + t) == Item(r, |e|)
    ensures r.tag == fields[k].tag
    ensures DecodeSlot(fields[k], Array(prefix), r.wt, r.raw) == Appended(fields[k], prefix, [v])
  {
    var f := fields[k];
    assert FieldOk(f) && NormalValue(f, [v][0]);
    var raw := ScalarRead(f, v, t);
    assert ItemBytes(f, [v]) == EncodeNumber(f, v.n) + [] == EncodeNumber(f, v.n);
    KeyRead(fields, k, FieldWireType(f.ltype), EncodeNumber(f, v.n), raw, t);
    r := Record(f.tag, FieldWireType(f.ltype), raw);
    if |prefix| < f.arraySize { DecodeItem(f, prefix, v, r.wt, raw); }
  }

  /** A chunk is one record, and that record appends its elements or is refused. */
  lemma {:induction false} ChunkRead(fields: seq<Field>, k: nat, c: Chunk, prefix: seq<Value>, t: seq<byte>) returns (r: Record)
    requires k < |fields| && WellFormed(fields) && fields[k].htype.Repeated? && fields[k].Packable()
    requires NormalItems(fields[k], Elements(c)) && ChunkReadable(fields[k], c)
    requires |prefix| <= fields[k].arraySize
    ensures var e := ChunkBytes(fields[k], c); e != [] && ReadRecord(fields, e + t) == Item(r, |e|)
    ensures Find(fields, r.tag) == Some(k)
    ensures DecodeSlot(fields[k], Array(prefix), r.wt, r.raw) == Appended(fields[k], prefix, Elements(c))
  {
    assert Find(fields, fields[k].tag) == Some(k);
    hide DecodeSlot, ReadRecord, WellFormed, NormalItems, ItemBytes, Key, Delimit, Find, Appended;
    match c
    case PackedRun(items) =>
      PackedChunkRead(fields, k, items, prefix, t);
      r := Record(fields[k].tag, WT_STRING, Octets(ItemBytes(fields[k], items)));
    case Lone(v) =>
      r := LoneChunkRead(fields, k, v, prefix, t);
  }

  /** The decoder's state once the elements are in, or the refusal. */
  function AfterElements(fields: seq<Field>, k: nat, st: State, items: seq<Value>): Option<State>
    requires k < |fields|
  {
    match EnterField(fields, st, k)
    case None => None
    case Some(st1) =>
      if k < |st1.slots| && st1.slots[k].Array? && |st1.slots[k].items| + |items| <= fields[k].arraySize then
        Some(State(st1.slots[k := Array(st1.slots[k].items + items)], st1.run, st1.seen + {k}))
      else None
  }

  /** One chunk at the front of the stream. */
  lemma {:induction false} ChunkStep(fields: seq<Field>, k: nat, st: State, c: Chunk, t: seq<byte>)
    requires k < |fields| && WellFormed(fields) && fields[k].htype.Repeated? && fields[k].Packable()
    requires k < |st.slots| && st.slots[k].Array? && |st.slots[k].items| <= fields[k].arraySize
    requires NormalItems(fields[k], Elements(c)) && ChunkReadable(fields[k], c)
    ensures Run(fields, st, ChunkBytes(fields[k], c) + t) ==
            match AfterElements(fields, k, st, Elements(c)) case None => None case Some(st') => Run(fields, st', t)
  {
    var enter := EnterField(fields, st, k);
    var prefix := if enter.Some? then enter.value.slots[k].items else [];
    var r := ChunkRead(fields, k, c, prefix, t);
    var e := ChunkBytes(fields[k], c);
    assert (e + t)[|e|..] == t;
    RunStep(fields, st, e + t);
    HomeKind(fields, k);
    hide DecodeSlot, Run, WellFormed, NormalItems, ChunkBytes, Lex;
    assert ApplyRecord(fields, st, r) == AfterElements(fields, k, st, Elements(c));
  }

  /** Whatever the split, the outcome is a function of the element list. */
  lemma {:induction false} ChunksRead(fields: seq<Field>, k: nat, st: State, cs: seq<Chunk>, t: seq<byte>)
    requires k < |fields| && WellFormed(fields) && fields[k].htype.Repeated? && fields[k].Packable()
    requires k < |st.slots| && st.slots[k].Array? && |st.slots[k].items| <= fields[k].arraySize
    requires cs != [] && NormalItems(fields[k], Flatten(cs)) && ChunksReadable(fields[k], cs)
    ensures Run(fields, st, ChunksBytes(fields[k], cs) + t) ==
            match AfterElements(fields, k, st, Flatten(cs)) case None => None case Some(st') => Run(fields, st', t)
    decreases |cs|
  {
    var f, c, rest := fields[k], cs[0], cs[1..];
    FlattenNormal(f, cs);
    var u := ChunksBytes(f, rest) + t;
    assert ChunksBytes(f, cs) + t == ChunkBytes(f, c) + u;
    ChunkStep(fields, k, st, c, u);
    var next := AfterElements(fields, k, st, Elements(c));
    if rest == [] {
      assert u == t;
      assert Flatten(cs) == Elements(c);
    } else if next.Some? {
      AfterTwice(fields, k, st, Elements(c), Flatten(rest));
      ChunksRead(fields, k, next.value, rest, t);
    }
    hide Run, WellFormed, NormalItems, ChunkBytes, EnterField;
  }

  /** Appending in two goes is appending at once. */
  lemma {:induction false} AfterTwice(fields: seq<Field>, k: nat, st: State, a: seq<Value>, b: seq<Value>)
    requires k < |fields| && AfterElements(fields, k, st, a).Some?
    ensures var st1 := AfterElements(fields, k, st, a).value;
            && k < |st1.slots| && st1.slots[k].Array? && |st1.slots[k].items| <= fields[k].arraySize
            && AfterElements(fields, k, st1, b) == AfterElements(fields, k, st, a + b)
  {
    var st1 := AfterElements(fields, k, st, a).value;
    var base := EnterField(fields, st, k).value;
    var p := base.slots[k].items;
    assert EnterField(fields, st1, k) == Some(st1);
    if |p| + |a| + |b| <= fields[k].arraySize {
      assert p + a + b == p + (a + b);
      assert st1.seen + {k} == st1.seen;
      assert st1.slots[k := Array(p + (a + b))] == base.slots[k := Array(p + (a + b))];
    }
  }

  /** Two splits of the same elements leave the decoder in the same place. */
  lemma {:induction false} PackingIrrelevant(fields: seq<Field>, k: nat, st: State, cs: seq<Chunk>, ds: seq<Chunk>, t: seq<byte>)
    requires k < |fields| && WellFormed(fields) && fields[k].htype.Repeated? && fields[k].Packable()
    requires k < |st.slots| && st.slots[k].Array? && |st.slots[k].items| <= fields[k].arraySize
    requires cs != [] && ds != [] && Flatten(cs) == Flatten(ds) && NormalItems(fields[k], Flatten(cs))
    requires ChunksReadable(fields[k], cs) && ChunksReadable(fields[k], ds)
    ensures Run(fields, st, ChunksBytes(fields[k], cs) + t) == Run(fields, st, ChunksBytes(fields[k], ds) + t)
  {
    ChunksRead(fields, k, st, cs, t);
    ChunksRead(fields, k, st, ds, t);
  }
}
