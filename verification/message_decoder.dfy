/** The message decoder as it runs: over a stream, a field iterator and a bitmap of required fields. */
module MessageDecoder {
  import opened Bits
  import opened Descriptor
  import opened Wire
  import opened Decoder
  import opened InputStream
  import opened FieldIter
  import Varint

  // ----- the bitmap of required fields

  /** Two 32-bit words with bit r set exactly for the required indices in marked. */
  predicate Marks(words: seq<nat>, marked: set<nat>) {
    && |words| == 2 && words[0] < Pow2(32) && words[1] < Pow2(32)
    && forall r :: 0 <= r < 64 ==> (Bit(words[r / 32], r % 32) <==> r in marked)
  }

  method MarkSeen(words: array<nat>, r: nat, ghost marked: set<nat>)
    requires r < MAX_REQUIRED_FIELDS && Marks(words[..], marked)
    modifies words
    ensures Marks(words[..], marked + {r})
  {
    var w := words[r / 32];
    words[r / 32] := Or(w, Pow2(r % 32));
    forall q: nat | q < 64
      ensures Bit(words[q / 32], q % 32) <==> q in marked + {r}
    {
      BitOr(w, Pow2(r % 32), q % 32);
      BitPow2(r % 32, q % 32);
      assert old(words[..])[q / 32] == old(words[q / 32]);
    }
    Pow2Below(r % 32, 32);
    OrBound(w, Pow2(r % 32), 32);
  }

  lemma {:induction false} OnesShifted(n: nat)
    requires n <= 32
    ensures (TWO_32 - 1) / Pow2(32 - n) == Pow2(n) - 1
  {
    Varint.Pow2_32();
    Pow2Add(n, 32 - n);
    OnesDivided(Pow2(n), Pow2(32 - n));
    hide Pow2;
  }

  lemma {:induction false} OnesDivided(p: nat, q: nat)
    requires p >= 1 && q >= 1 && p * q == TWO_32
    ensures (TWO_32 - 1) / q == p - 1
  {
    Distribute(p, 1, q);
    DivideUnique(TWO_32 - 1, q, p - 1, q - 1);
  }

  lemma {:induction false} WordMarks(words: seq<nat>, marked: set<nat>, i: nat, j: nat)
    requires Marks(words, marked) && i < 2 && j < 32
    ensures Bit(words[i], j) <==> 32 * i + j in marked
  {
    assert (32 * i + j) / 32 == i && (32 * i + j) % 32 == j;
  }

  /** Word i equals n ones exactly when its first n indices are all marked, provided no later one is. */
  lemma {:induction false} WordBound(words: seq<nat>, marked: set<nat>, i: nat)
    requires Marks(words, marked) && i < 2
    ensures |words| == 2 && words[i] < Pow2(32)
  {
    hide Bit;
    Varint.Pow2_32();
  }

  lemma {:induction false} FullWord(words: seq<nat>, marked: set<nat>, i: nat, n: nat)
    requires Marks(words, marked) && i < 2 && n <= 32
    requires forall r :: 32 * i + n <= r < 32 * i + 32 ==> r !in marked
    ensures words[i] == Pow2(n) - 1 <==> forall r :: 32 * i <= r < 32 * i + n ==> r in marked
  {
    hide Marks, Pow2, Bit;
    WordBound(words, marked, i);
    var w, ones := words[i], Pow2(n) - 1;
    Varint.Pow2_32();
    if n < 32 { Pow2Below(n, 32); }
    if w == ones {
      forall r: nat | 32 * i <= r < 32 * i + n
        ensures r in marked
      {
        BitOnes(n, r - 32 * i);
        WordMarks(words, marked, i, r - 32 * i);
      }
    } else if forall r :: 32 * i <= r < 32 * i + n ==> r in marked {
      forall j | 0 <= j < 32
        ensures Bit(w, j) == Bit(ones, j)
      {
        BitOnes(n, j);
        WordMarks(words, marked, i, j);
      }
      SameBits(w, ones, 32);
    }
  }

  /** The end-of-message test: the first count indices (64 at most) are all marked. */
  method AllSeen(words: array<nat>, count: nat, ghost marked: set<nat>) returns (ok: bool)
    requires Marks(words[..], marked) && forall r :: r in marked ==> r < count
    ensures ok <==> forall r :: 0 <= r < count && r < MAX_REQUIRED_FIELDS ==> r in marked
  {
    var n: nat := if count > MAX_REQUIRED_FIELDS then MAX_REQUIRED_FIELDS else count;
    ghost var ws := words[..];
    Varint.Pow2_32();
    for i := 0 to n / 32
      invariant forall r :: 0 <= r < 32 * i ==> r in marked
    {
      FullWord(ws, marked, i, 32);
      if words[i] != TWO_32 - 1 {
        assert ws[i] == words[i];
        return false;
      }
    }
    if n % 32 != 0 {
      var i := n / 32;
      FullWord(ws, marked, i, n % 32);
      OnesShifted(n % 32);
      if words[i] != (TWO_32 - 1) / Pow2(32 - n % 32) {
        assert ws[i] == words[i];
        return false;
      }
    }
    ok := true;
  }

  // ----- field decoders

  /** The three varint decoders: 64-bit value, cast to the member's width, refused if that loses
      information. */
  method DecVarint(stream: IStream, f: Field) returns (ok: bool, v: Value)
    requires stream.Valid() && NaturalShape(f.ltype) == Word64
    modifies stream
    ensures stream.Within(old(stream.pos + stream.bytesLeft)) && stream.pos >= old(stream.pos)
    ensures match ReadRaw(Word64, old(stream.Rest()))
            case Bad => !ok
            case Good(raw, n) => Decoded(DecodeNumber(f, raw), ok, v) && (ok ==> stream.Took(n))
  {
    v := Num(0);
    var u;
    ok, u := stream.DecodeVarint();
    if !ok { return; }
    if !NumericSize(f.dataSize) { return false, v; }
    var n: int, clamped: int;
    if f.ltype.UVarintType? {
      n := u;
      clamped := n % Span(f.dataSize);
    } else {
      if f.ltype.SVarintType? {
        n := UnZigZag(u);
      } else if f.dataSize == 8 {
        n := ToSigned(u, TWO_64);
      } else {
        n := ToSigned(u, TWO_32);
      }
      clamped := ToSigned(n, Span(f.dataSize));
    }
    v := Num(clamped);
    ok := clamped == n;
  }

  /** The outcome ok, v of a decoder agrees with the specification. */
  ghost predicate Decoded<T>(spec: Option<T>, ok: bool, v: T) {
    match spec case None => !ok case Some(w) => ok && v == w
  }

  method DecFixed(stream: IStream, f: Field) returns (ok: bool, v: Value)
    requires stream.Valid() && NaturalShape(f.ltype).Width?
    modifies stream
    ensures stream.Within(old(stream.pos + stream.bytesLeft)) && stream.pos >= old(stream.pos)
    ensures match ReadRaw(NaturalShape(f.ltype), old(stream.Rest()))
            case Bad => !ok
            case Good(raw, n) => Decoded(DecodeNumber(f, raw), ok, v) && (ok ==> stream.Took(n))
  {
    var data;
    ok, data := stream.Read(if f.ltype.Fixed32Type? then 4 else 8);
    v := Num(FromLittleEndian(data));
  }

  method DecBytes(stream: IStream, f: Field) returns (ok: bool, v: Value)
    requires stream.Valid() && f.ltype.BytesType?
    modifies stream
    ensures stream.Within(old(stream.pos + stream.bytesLeft)) && stream.pos >= old(stream.pos)
    ensures match ReadRaw(Delimited, old(stream.Rest()))
            case Bad => !ok
            case Good(raw, n) => Decoded(DecodeBlob(f, raw.b), ok, v) && (ok ==> stream.Took(n))
  {
    v := Blob([]);
    ghost var s := stream.Rest();
    var size, eof, data;
    ok, size, eof := stream.DecodeVarint32();
    ghost var n := |s| - stream.bytesLeft;
    if !ok { return; }
    if size > PB_SIZE_MAX || size + BYTES_HEADER > f.dataSize { return false, v; }
    ok, data := stream.ReadPayload(size, s, n);
    v := Blob(data);
  }

  method DecString(stream: IStream, f: Field) returns (ok: bool, v: Value)
    requires stream.Valid() && f.ltype.StringType?
    modifies stream
    ensures stream.Within(old(stream.pos + stream.bytesLeft)) && stream.pos >= old(stream.pos)
    ensures match ReadRaw(Delimited, old(stream.Rest()))
            case Bad => !ok
            case Good(raw, n) => Decoded(DecodeBlob(f, raw.b), ok, v) && (ok ==> stream.Took(n))
  {
    v := Blob([]);
    ghost var s := stream.Rest();
    var size, eof, data;
    ok, size, eof := stream.DecodeVarint32();
    ghost var n := |s| - stream.bytesLeft;
    if !ok { return; }
    var allocSize := (size + 1) % TWO_32;
    if allocSize < size || allocSize > f.dataSize { return false, v; }
    ok, data := stream.ReadPayload(size, s, n);
    v := Blob(data);
  }

  method DecFixedLengthBytes(stream: IStream, f: Field) returns (ok: bool, v: Value)
    requires stream.Valid() && f.ltype.FixedLengthBytes?
    modifies stream
    ensures stream.Within(old(stream.pos + stream.bytesLeft)) && stream.pos >= old(stream.pos)
    ensures match ReadRaw(Delimited, old(stream.Rest()))
            case Bad => !ok
            case Good(raw, n) => Decoded(DecodeBlob(f, raw.b), ok, v) && (ok ==> stream.Took(n))
  {
    v := Blob([]);
    ghost var s := stream.Rest();
    var size, eof, data;
    ok, size, eof := stream.DecodeVarint32();
    ghost var n := |s| - stream.bytesLeft;
    if !ok { return; }
    if size > PB_SIZE_MAX { return false, v; }
    if size == 0 { return true, Blob(Zeros(f.dataSize)); }
    if size != f.dataSize { return false, v; }
    ok, data := stream.ReadPayload(f.dataSize, s, n);
    v := Blob(data);
  }

  // ----- defaults

  method SetToDefaults(fields: seq<Field>) returns (slots: seq<Slot>)
    requires Table(fields)
    ensures slots == Defaults(fields)
    decreases fields
  {
    TableTags(fields);
    var iter := new Iter(fields);
    slots := [];
    if fields == [] { return; }
    var more := true;
    while more
      invariant iter.Valid() && iter.fields == fields
      invariant |slots| == if more then iter.pos else |fields|
      invariant slots == Defaults(fields)[..|slots|]
      decreases |fields| - |slots|, more
    {
      var f := fields[iter.pos];
      assert Entry(f);
      var slot := FieldToDefault(f);
      slots := slots + [slot];
      more := iter.Next();
    }
  }

  lemma {:induction false} TableTags(fields: seq<Field>)
    requires Table(fields)
    ensures forall i :: 0 <= i < |fields| ==> fields[i].tag != 0
  {
    forall i | 0 <= i < |fields|
      ensures fields[i].tag != 0
    {
      assert Entry(fields[i]);
    }
  }

  method FieldToDefault(f: Field) returns (slot: Slot)
    requires Entry(f)
    ensures slot == DefaultSlot(f)
    decreases f
  {
    var initData, has := true, false;
    if f.htype.Repeated? {
      slot := Array([]);
      initData := false;
    } else if f.htype.OneOf? {
      slot := NOTHING;
      initData := false;
    }
    if initData {
      var v;
      if f.ltype.SubMessage? {
        var sub := SetToDefaults(f.ltype.sub);
        v := Msg(sub);
      } else {
        v := DefaultValue(f);
      }
      slot := if f.htype.Optional? && f.sizeOffset != 0 then Flagged(has, v) else Single(v);
    }
  }

  // ----- one field

  method DecScalar(stream: IStream, f: Field) returns (ok: bool, v: Value)
    requires stream.Valid() && !f.ltype.SubMessage?
    modifies stream
    ensures stream.Inside() && (f.Packable() ==> stream.Within(old(stream.pos + stream.bytesLeft)))
    ensures match ReadRaw(NaturalShape(f.ltype), old(stream.Rest()))
            case Bad => !ok
            case Good(raw, n) =>
              && Decoded(DecodeValue(f, Num(0), raw), ok, v)
              && (f.Packable() ==> Decoded(DecodeNumber(f, raw), ok, v))
              && (ok ==> stream.Took(n))
  {
    match f.ltype
    case VarintType => ok, v := DecVarint(stream, f);
    case UVarintType => ok, v := DecVarint(stream, f);
    case SVarintType => ok, v := DecVarint(stream, f);
    case Fixed32Type => ok, v := DecFixed(stream, f);
    case Fixed64Type => ok, v := DecFixed(stream, f);
    case BytesType => ok, v := DecBytes(stream, f);
    case StringType => ok, v := DecString(stream, f);
    case FixedLengthBytes => ok, v := DecFixedLengthBytes(stream, f);
  }

  /** Decodes one value at the front of the stream into a member that holds current. */
  method DecValue(stream: IStream, f: Field, current: Value) returns (ok: bool, v: Value)
    requires stream.Valid() && (f.ltype.SubMessage? ==> Table(f.ltype.sub))
    modifies stream
    ensures stream.Inside()
    ensures match ReadRaw(NaturalShape(f.ltype), old(stream.Rest()))
            case Bad => !ok
            case Good(raw, n) => Decoded(DecodeValue(f, current, raw), ok, v) && (ok ==> stream.Took(n))
    decreases stream.bytesLeft, 1
  {
    if f.ltype.SubMessage? {
      v := current;
      if !current.Msg? { return false, v; }
      var slots;
      ok, slots := DecSubmessage(stream, f.ltype.sub, current.slots);
      if ok { v := Msg(slots); }
    } else {
      ok, v := DecScalar(stream, f);
    }
  }

  /** Decodes a length-delimited submessage on top of slots; the stream ends just past it. */
  method DecSubmessage(stream: IStream, sub: seq<Field>, slots: seq<Slot>) returns (ok: bool, out: seq<Slot>)
    requires stream.Valid() && Table(sub)
    modifies stream
    ensures stream.Inside()
    ensures match ReadDelimited(old(stream.Rest()))
            case Bad => !ok
            case Good(b, n) => Decoded(DecodeInto(sub, slots, b), ok, out) && (ok ==> stream.Took(n))
    decreases stream.bytesLeft, 0
  {
    hide DecodeInto, ReadDelimited, Table;
    out := slots;
    var got, substream := stream.MakeStringSubstream();
    if !got { return false, out; }
    ok, out := DecodeNoinit(substream, sub, slots);
    var closed := stream.CloseStringSubstream(substream);
  }

  /** Decodes elements until the run ends, the array is full or one of them is bad. */
  method DecElements(stream: IStream, f: Field, items: seq<Value>) returns (status: bool, out: seq<Value>)
    requires stream.Valid() && f.Packable()
    modifies stream
    ensures stream.Inside() && stream.Within(old(stream.pos + stream.bytesLeft))
    ensures Decoded(DecodePacked(f, items, old(stream.Rest())), status && stream.bytesLeft == 0, out)
  {
    out := items;
    status := true;
    ghost var whole := DecodePacked(f, items, stream.Rest());
    while stream.bytesLeft > 0 && |out| < f.arraySize
      invariant stream.Inside() && stream.Within(old(stream.pos + stream.bytesLeft))
      invariant whole == DecodePacked(f, out, stream.Rest())
      decreases stream.bytesLeft
    {
      hide DecodePacked, DecodeNumber, ReadRaw, DecodeValue;
      PackedStep(f, out, stream.Rest());
      var v;
      status, v := DecScalar(stream, f);
      if !status { break; }
      out := out + [v];
    }
  }

  /** Decodes a packed run, appending its elements while there is room.  After a bad element or an overflow
      the payload is accounted for, and the stream stands before it unless all of it was read. */
  method DecPacked(stream: IStream, f: Field, items: seq<Value>) returns (ok: bool, out: seq<Value>)
    requires stream.Valid() && f.Packable()
    modifies stream
    ensures stream.Inside()
    ensures match ReadDelimited(old(stream.Rest()))
            case Bad => !ok
            case Good(b, n) =>
              && Decoded(DecodePacked(f, items, b), ok, out) && (ok ==> stream.Took(n))
              && stream.bytesLeft + n == old(stream.bytesLeft)
              && (!ok ==> stream.pos + |b| == old(stream.pos) + n || stream.pos == old(stream.pos) + n)
  {
    hide DecodePacked, ReadDelimited, DecodeNumber, DecodeValue;
    out := items;
    var got, substream := stream.MakeStringSubstream();
    if !got { return false, out; }
    var status;
    status, out := DecElements(substream, f, items);
    if substream.bytesLeft != 0 { return false, out; }
    var closed := stream.CloseStringSubstream(substream);
    ok := status;
  }

  /** Decodes the payload of a known field into its storage. */
  method DecodeStaticField(stream: IStream, wt: nat, f: Field, slot: Slot) returns (ok: bool, out: Slot)
    requires stream.Valid() && (f.ltype.SubMessage? ==> Table(f.ltype.sub))
    modifies stream
    ensures stream.Inside()
    ensures match ReadRaw(FieldShape(f, wt), old(stream.Rest()))
            case Bad => !ok
            case Good(raw, n) => Decoded(DecodeSlot(f, slot, wt, raw), ok, out) && (ok ==> stream.Took(n))
    decreases stream.bytesLeft, 2
  {
    hide DecodePacked, DecodeNumber, DecodeValue, ReadDelimited, DefaultValue;
    out := slot;
    var v;
    match f.htype
    case Required =>
      if !slot.Single? { return false, out; }
      ok, v := DecValue(stream, f, slot.v);
      out := Single(v);
    case Optional =>
      if !slot.Single? && !slot.Flagged? { return false, out; }
      ok, v := DecValue(stream, f, slot.v);
      out := if slot.Flagged? then Flagged(true, v) else Single(v);
    case Repeated =>
      if !slot.Array? { return false, out; }
      if wt == WT_STRING && f.Packable() {
        var items;
        ok, items := DecPacked(stream, f, slot.items);
        out := Array(items);
      } else {
        if |slot.items| >= f.arraySize { return false, out; }
        v := InitialValue(f);
        ok, v := DecValue(stream, f, v);
        out := Array(slot.items + [v]);
      }
    case OneOf =>
      if !slot.Union? { return false, out; }
      v := InitialValue(f);
      ok, v := DecValue(stream, f, v);
      out := Union(f.tag, v);
  }

  /** The contents a fresh array element or union member starts from. */
  method InitialValue(f: Field) returns (v: Value)
    requires f.ltype.SubMessage? ==> Table(f.ltype.sub)
    ensures v == DefaultValue(f)
  {
    if f.ltype.SubMessage? {
      var slots := SetToDefaults(f.ltype.sub);
      v := Msg(slots);
    } else {
      v := DefaultValue(f);
    }
  }

  /** Where the loop goes from a state, seen from the rest of the stream. */
  ghost function Outcome(fields: seq<Field>, st: State, s: seq<byte>): Option<seq<Slot>> {
    match Run(fields, st, s) case None => None case Some(st') => Finish(fields, st')
  }

  /** The fixed-count bookkeeping variables agree with the specification's state. */
  ghost predicate Tracks(fields: seq<Field>, st: State, runField: Option<nat>, runSize: nat) {
    && runField == st.run
    && (runField.Some? ==>
          runField.value < |fields| && runField.value < |st.slots| && st.slots[runField.value].Array?
          && |st.slots[runField.value].items| == runSize)
  }

  /** The loop's variables hold the specification's state. */
  ghost predicate Bookkeeping(fields: seq<Field>, st: State, slots: seq<Slot>, runField: Option<nat>, runSize: nat) {
    && st.slots == slots && Tracks(fields, st, runField, runSize)
    && (runField.Some? ==> fields[runField.value].FixedCount())
  }

  /** The required indices among the fields met. */
  ghost function RequiredMarks(fields: seq<Field>, seen: set<nat>): set<nat> {
    set i | i in seen && i < |fields| && fields[i].htype.Required? && RequiredIndex(fields, i) < MAX_REQUIRED_FIELDS
      :: RequiredIndex(fields, i)
  }

  lemma {:induction false} RequiredOrder(fields: seq<Field>, i: nat, j: nat)
    requires i < j <= |fields|
    ensures RequiredIndex(fields, i) <= RequiredIndex(fields, j)
    ensures fields[i].htype.Required? ==> RequiredIndex(fields, i) < RequiredIndex(fields, j)
  {
    if i + 1 < j { RequiredOrder(fields, i, j - 1); }
  }

  /** Some required field has each index below the total. */
  lemma {:induction false} RequiredAt(fields: seq<Field>, n: nat, r: nat) returns (i: nat)
    requires n <= |fields| && r < RequiredIndex(fields, n)
    ensures i < n && fields[i].htype.Required? && RequiredIndex(fields, i) == r
  {
    if fields[n - 1].htype.Required? && r == RequiredIndex(fields, n - 1) {
      i := n - 1;
    } else {
      i := RequiredAt(fields, n - 1, r);
    }
  }

  /** Testing the marks tests the fields: indices and required fields are in bijection. */
  lemma {:induction false} RequiredSeenMarks(fields: seq<Field>, seen: set<nat>)
    ensures RequiredSeen(fields, seen) <==>
            forall r :: 0 <= r < RequiredIndex(fields, |fields|) && r < MAX_REQUIRED_FIELDS ==> r in RequiredMarks(fields, seen)
    ensures forall r :: r in RequiredMarks(fields, seen) ==> r < RequiredIndex(fields, |fields|)
  {
    var marks := RequiredMarks(fields, seen);
    forall r | r in marks
      ensures r < RequiredIndex(fields, |fields|)
    {
      var i :| i in seen && i < |fields| && fields[i].htype.Required? && RequiredIndex(fields, i) == r;
      RequiredOrder(fields, i, |fields|);
    }
    forall r: nat | RequiredSeen(fields, seen) && r < RequiredIndex(fields, |fields|) && r < MAX_REQUIRED_FIELDS
      ensures r in marks
    {
      var i := RequiredAt(fields, |fields|, r);
    }
    forall i | 0 <= i < |fields| && fields[i].htype.Required? && RequiredIndex(fields, i) < MAX_REQUIRED_FIELDS
      ensures RequiredIndex(fields, i) in marks <==> i in seen
      ensures RequiredIndex(fields, i) < RequiredIndex(fields, |fields|)
    {
      RequiredOrder(fields, i, |fields|);
      if RequiredIndex(fields, i) in marks {
        var j :| j in seen && j < |fields| && fields[j].htype.Required? && RequiredIndex(fields, j) == RequiredIndex(fields, i);
        if i < j { RequiredOrder(fields, i, j); } else if j < i { RequiredOrder(fields, j, i); }
      }
    }
  }

  lemma {:induction false} MarksStep(fields: seq<Field>, seen: set<nat>, i: nat)
    requires i < |fields|
    ensures RequiredMarks(fields, seen + {i}) ==
            if fields[i].htype.Required? && RequiredIndex(fields, i) < MAX_REQUIRED_FIELDS
            then RequiredMarks(fields, seen) + {RequiredIndex(fields, i)} else RequiredMarks(fields, seen)
  {
  }

  /** Total number of required fields, found by walking the iterator to the end of the table. */
  method CountRequired(iter: Iter) returns (count: nat)
    requires iter.Valid() && forall i :: 0 <= i < |iter.fields| ==> iter.fields[i].tag != 0
    modifies iter
    ensures iter.Valid() && count == RequiredIndex(iter.fields, |iter.fields|)
  {
    count := iter.requiredFieldIndex;
    var last := At(iter.fields, iter.pos);
    ghost var p: nat := iter.pos;
    var more := iter.Next();
    while more
      invariant iter.Valid() && p <= |iter.fields| && (iter.fields != [] ==> p < |iter.fields|)
      invariant count == RequiredIndex(iter.fields, p) && last == At(iter.fields, p)
      invariant if more then iter.pos == p + 1 else iter.pos == 0 && p + 1 >= |iter.fields|
      decreases more, |iter.fields| - iter.pos
    {
      count := iter.requiredFieldIndex;
      last := At(iter.fields, iter.pos);
      p := iter.pos;
      more := iter.Next();
    }
    if last.htype.Required? && At(iter.fields, iter.pos).tag != 0 { count := count + 1; }
  }

  /** The bookkeeping for arrays without a count member, before field i is decoded. */
  method EnterRepeated(fields: seq<Field>, i: nat, slots: seq<Slot>, runField: Option<nat>, runSize: nat, ghost st: State)
    returns (ok: bool, slots': seq<Slot>, runField': Option<nat>, runSize': nat)
    requires i < |fields| && st.slots == slots && Tracks(fields, st, runField, runSize)
    ensures match EnterField(fields, st, i)
            case None => !ok
            case Some(st1) =>
              ok && st1 == State(slots', runField', st.seen) && Tracks(fields, st1, runField', runSize')
  {
    ok, slots', runField', runSize' := true, slots, runField, runSize;
    if fields[i].htype.Repeated? && fields[i].sizeOffset == 0 && runField != Some(i) {
      if runField.Some? && runSize != fields[runField.value].arraySize { return false, slots, runField, runSize; }
      if i >= |slots| { return false, slots, runField, runSize; }
      slots', runField', runSize' := slots[i := Array([])], Some(i), 0;
    }
  }

  /** Storing the decoded slot keeps the bookkeeping in step. */
  lemma {:induction false} StoreTracks(fields: seq<Field>, st: State, i: nat, slot: Slot, wt: nat, raw: Raw, runField: Option<nat>, runSize: nat)
    requires i < |fields| && Home(fields, i) < |st.slots| && Tracks(fields, st, runField, runSize)
    requires DecodeSlot(fields[i], st.slots[Home(fields, i)], wt, raw) == Some(slot)
    requires runField.Some? ==> fields[runField.value].FixedCount()
    ensures var st' := State(st.slots[Home(fields, i) := slot], st.run, st.seen + {i});
            Tracks(fields, st', runField, if runField == Some(i) && slot.Array? then |slot.items| else runSize)
  {
    HomeKind(fields, i);
  }

  /** Looks up the field that an already used union holds, to release it, and comes back to field i.  The
      members of a static union own nothing, so finding it is all there is to do. */
  method ReleaseUnionField(iter: Iter, i: nat, slot: Slot) returns (ok: bool)
    requires iter.Valid() && Table(iter.fields) && i < |iter.fields| && iter.pos == i
    requires iter.fields[i].htype.OneOf?
    modifies iter
    ensures iter.Valid() && (ok ==> iter.pos == i)
    ensures ok == Releasable(iter.fields, slot)
  {
    TableTags(iter.fields);
    if !slot.Union? { return true; }
    var oldTag, newTag: nat := slot.which, iter.fields[i].tag;
    if oldTag == 0 || oldTag == newTag { return true; }
    ok := iter.Find(oldTag);
    if !ok { return; }
    ok := iter.Find(newTag);
  }

  /** A union can only be decoded into by its own members. */
  lemma {:induction false} UnionMembers(f: Field, slot: Slot, wt: nat, raw: Raw)
    ensures slot.Union? && !f.htype.OneOf? ==> DecodeSlot(f, slot, wt, raw) == None
  {
  }

  /** Decodes the payload of the field the iterator stands on. */
  method DecodeKnown(stream: IStream, fields: seq<Field>, iter: Iter, i: nat, words: array<nat>, wt: nat,
                     slots: seq<Slot>, runField: Option<nat>, runSize: nat, ghost st: State)
    returns (ok: bool, slots': seq<Slot>, runField': Option<nat>, runSize': nat, ghost st': State)
    requires stream.Valid() && Table(fields) && i < |fields| && Entry(fields[i])
    requires iter.Valid() && iter.fields == fields && iter.pos == i
    requires Find(fields, fields[i].tag) == Some(i)
    requires Bookkeeping(fields, st, slots, runField, runSize) && Marks(words[..], RequiredMarks(fields, st.seen))
    modifies stream, iter, words
    ensures stream.Inside() && iter.Valid()
    ensures match ReadRaw(FieldShape(fields[i], wt), old(stream.Rest()))
            case Bad => !ok
            case Good(raw, n) =>
              Decoded(ApplyRecord(fields, st, Record(fields[i].tag, wt, raw)), ok, st') && (ok ==> stream.Took(n))
    ensures ok ==> Bookkeeping(fields, st', slots', runField', runSize')
    ensures ok ==> Marks(words[..], RequiredMarks(fields, st'.seen))
    decreases stream.bytesLeft, 3
  {
    hide Table, DecodeSlot, RequiredMarks, Marks, ReadRaw, RequiredIndex, DataAt, SizeAt;
    st' := st;
    var f := fields[i];
    ok, slots', runField', runSize' := EnterRepeated(fields, i, slots, runField, runSize, st);
    if !ok { return; }
    ghost var st1 := State(slots', runField', st.seen);
    if f.htype.Required? && iter.requiredFieldIndex < MAX_REQUIRED_FIELDS {
      MarkSeen(words, iter.requiredFieldIndex, RequiredMarks(fields, st.seen));
    }
    MarksStep(fields, st.seen, i);
    var h := Home(fields, i);
    if h >= |slots'| { return false, slots, runField, runSize, st; }
    if f.htype.OneOf? {
      ok := ReleaseUnionField(iter, i, slots'[h]);
      if !ok { return; }
    }
    ghost var before := stream.Rest();
    var slot;
    ok, slot := DecodeStaticField(stream, wt, f, slots'[h]);
    if ReadRaw(FieldShape(f, wt), before).Good? {
      UnionMembers(f, slots'[h], wt, ReadRaw(FieldShape(f, wt), before).value);
    }
    if !ok { return; }
    ghost var raw := ReadRaw(FieldShape(f, wt), before).value;
    ApplyKnown(fields, st, Record(f.tag, wt, raw), i, st1, slot);
    StoreTracks(fields, st1, i, slot, wt, raw, runField', runSize');
    hide ApplyRecord, EnterField, FieldShape;
    slots' := slots'[h := slot];
    if runField' == Some(i) && slot.Array? { runSize' := |slot.items|; }
    st' := State(slots', runField', st.seen + {i});
  }

  /** One pass of the decoding loop, after the key. */
  method DecodeRecord(stream: IStream, fields: seq<Field>, iter: Iter, words: array<nat>, tag: nat, wt: nat,
                      slots: seq<Slot>, runField: Option<nat>, runSize: nat, ghost st: State)
    returns (ok: bool, slots': seq<Slot>, runField': Option<nat>, runSize': nat, ghost st': State)
    requires stream.Valid() && Table(fields) && iter.Valid() && iter.fields == fields
    requires Bookkeeping(fields, st, slots, runField, runSize) && Marks(words[..], RequiredMarks(fields, st.seen))
    modifies stream, iter, words
    ensures stream.Inside() && iter.Valid()
    ensures match ReadRaw(ShapeOf(fields, tag, wt), old(stream.Rest()))
            case Bad => !ok
            case Good(raw, n) =>
              Decoded(ApplyRecord(fields, st, Record(tag, wt, raw)), ok, st') && (ok ==> stream.Took(n))
    ensures ok ==> Bookkeeping(fields, st', slots', runField', runSize')
    ensures ok ==> Marks(words[..], RequiredMarks(fields, st'.seen))
    decreases stream.bytesLeft, 4
  {
    hide Bookkeeping, Marks, RequiredMarks, EnterField;
    TableTags(fields);
    slots', runField', runSize', st' := slots, runField, runSize, st;
    var found := iter.Find(tag);
    if !found {
      ok := stream.SkipField(wt);
    } else if iter.pos == |fields| {
      var slot;
      ok, slot := DecodeStaticField(stream, wt, END, Single(Num(0)));
    } else {
      var i := iter.pos;
      assert Entry(fields[i]) && Find(fields, tag) == Some(i);
      hide Table, Entry, ApplyRecord;
      ok, slots', runField', runSize', st' :=
        DecodeKnown(stream, fields, iter, i, words, wt, slots, runField, runSize, st);
    }
  }

  /** Where the loop goes after a nonzero key, from the payload on. */
  ghost function PayloadOutcome(fields: seq<Field>, st: State, key: nat, s: seq<byte>): Option<seq<Slot>> {
    match ReadRaw(ShapeOf(fields, key / 8, key % 8), s)
    case Bad => None
    case Good(raw, k) =>
      match ApplyRecord(fields, st, Record(key / 8, key % 8, raw))
      case None => None
      case Some(st') => Outcome(fields, st', s[k..])
  }

  /** What the first key at the front of the stream leads to. */
  lemma {:induction false} OutcomeStep(fields: seq<Field>, st: State, s: seq<byte>)
    requires s != []
    ensures var r := Varint.Read32(s);
            Outcome(fields, st, s) ==
            if r.Bad? then None
            else if r.value == 0 then Finish(fields, st)
            else if r.len > |s| then None
            else PayloadOutcome(fields, st, r.value, s[r.len..])
  {
    hide ApplyRecord, Finish, ReadRaw, ShapeOf;
    if Varint.Read32(s).Good? { Varint.Read32Extent(s); Varint.ExtentBound(s); }
    assert ApplyAll(fields, st, []) == Some(st);
    if ReadRecord(fields, s).Item? {
      RunStep(fields, st, s);
      var n := Varint.Read32(s).len;
      assert s[n..][ReadRecord(fields, s).len - n..] == s[ReadRecord(fields, s).len..];
    }
  }

  /** The decoding loop: until the end of the stream or a zero key. */
  method DecodeLoop(stream: IStream, fields: seq<Field>, iter: Iter, words: array<nat>, m: seq<Slot>)
    returns (ok: bool, slots: seq<Slot>, runField: Option<nat>, runSize: nat, ghost st: State)
    requires stream.Valid() && Table(fields) && iter.Valid() && iter.fields == fields
    requires Marks(words[..], RequiredMarks(fields, {}))
    modifies stream, iter, words
    ensures stream.Inside() && iter.Valid() && (ok ==> stream.Within(old(stream.pos + stream.bytesLeft)))
    ensures ok ==> Bookkeeping(fields, st, slots, runField, runSize) && Marks(words[..], RequiredMarks(fields, st.seen))
    ensures Outcome(fields, State(m, None, {}), old(stream.Rest())) == if ok then Finish(fields, st) else None
    decreases stream.bytesLeft, 5
  {
    slots, runField, runSize, st := m, None, 0, State(m, None, {});
    ghost var start := Outcome(fields, st, stream.Rest());
    hide Table, Marks, RequiredMarks, Finish, ApplyRecord, Outcome, ReadRaw, ShapeOf, Varint.Read32;
    assert Outcome(fields, st, []) == Finish(fields, st) by { EmptyOutcome(fields, st); }
    while stream.bytesLeft != 0
      invariant stream.Inside() && stream.Within(old(stream.pos + stream.bytesLeft))
      invariant iter.Valid()
      invariant Bookkeeping(fields, st, slots, runField, runSize)
      invariant Marks(words[..], RequiredMarks(fields, st.seen))
      invariant start == Outcome(fields, st, stream.Rest())
      decreases stream.bytesLeft
    {
      hide Bookkeeping;
      OutcomeStep(fields, st, stream.Rest());
      var got, wt, tag, eof;
      got, wt, tag, eof := stream.DecodeTag();
      if !got {
        return eof, slots, runField, runSize, st;
      }
      got, slots, runField, runSize, st := DecodeRecord(stream, fields, iter, words, tag, wt, slots, runField, runSize, st);
      if !got { return false, slots, runField, runSize, st; }
    }
    EmptyOutcome(fields, st);
    ok := true;
  }

  lemma {:induction false} EmptyOutcome(fields: seq<Field>, st: State)
    ensures Outcome(fields, st, []) == Finish(fields, st)
  {
    assert Lex(fields, []) == Some([]);
    assert ApplyAll(fields, st, []) == Some(st);
  }

  /** Decodes a message on top of existing contents. */
  method DecodeNoinit(stream: IStream, fields: seq<Field>, m: seq<Slot>) returns (ok: bool, slots: seq<Slot>)
    requires stream.Valid() && Table(fields)
    modifies stream
    ensures stream.Inside() && (ok ==> stream.Within(old(stream.pos + stream.bytesLeft)))
    ensures Decoded(DecodeInto(fields, m, old(stream.Rest())), ok, slots)
    decreases stream.bytesLeft, 6
  {
    TableTags(fields);
    var fieldsSeen := new nat[2](_ => 0);
    var iter := new Iter(fields);
    NoMarks(fields, fieldsSeen[..]);
    hide Table, Marks, RequiredMarks, Run;
    var runField, runSize;
    ghost var st;
    ok, slots, runField, runSize, st := DecodeLoop(stream, fields, iter, fieldsSeen, m);
    if !ok { return; }
    if runField.Some? && runSize != fields[runField.value].arraySize { return false, slots; }
    var count := CountRequired(iter);
    RequiredSeenMarks(fields, st.seen);
    ok := AllSeen(fieldsSeen, count, RequiredMarks(fields, st.seen));
  }

  lemma {:induction false} NoMarks(fields: seq<Field>, words: seq<nat>)
    requires words == [0, 0]
    ensures Marks(words, RequiredMarks(fields, {}))
  {
    forall r: nat | r < 64
      ensures !Bit(words[r / 32], r % 32)
    {
      BitZero(r % 32);
    }
  }

  /** Decodes a whole message from scratch. */
  method Decode(stream: IStream, fields: seq<Field>) returns (ok: bool, slots: seq<Slot>)
    requires stream.Valid() && Table(fields)
    modifies stream
    ensures stream.Inside() && (ok ==> stream.Within(old(stream.pos + stream.bytesLeft)))
    ensures Decoded(Decoder.Decode(fields, old(stream.Rest())), ok, slots)
  {
    slots := SetToDefaults(fields);
    ok, slots := DecodeNoinit(stream, fields, slots);
  }
}
