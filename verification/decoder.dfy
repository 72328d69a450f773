/** What the decoder makes of a byte string, as a function; None is a decoding error. */
module Decoder {
  import opened Bits
  import opened Descriptor
  import opened Wire
  import Varint

  // ----- one value

  /** The value a varint stands for in a numeric member, if it fits. */
  function NumberFromVarint(f: Field, u: nat): Option<int>
    requires u < TWO_64
  {
    if !NumericSize(f.dataSize) then None
    else
      var n: int := match f.ltype
        case UVarintType => u
        case SVarintType => UnZigZag(u)
        case _ => if f.dataSize == 8 then ToSigned(u, TWO_64) else ToSigned(u, TWO_32);
      var clamped: int :=
        if f.ltype.UVarintType? then n % Span(f.dataSize) else ToSigned(n, Span(f.dataSize));
      if clamped == n then Some(n) else None
  }

  function DecodeNumber(f: Field, raw: Raw): Option<Value> {
    match raw
    case Word(u) =>
      if u < TWO_64 then (match NumberFromVarint(f, u) case None => None case Some(n) => Some(Num(n)))
      else None
    case Octets(b) => Some(Num(FromLittleEndian(b)))
    case Skipped => None
  }

  function DecodeBlob(f: Field, b: seq<byte>): Option<Value> {
    match f.ltype
    case BytesType => if |b| + BYTES_HEADER > f.dataSize then None else Some(Blob(b))
    case StringType =>
      var allocSize := (|b| + 1) % TWO_32;
      if allocSize < |b| || allocSize > f.dataSize then None else Some(Blob(b))
    case _ =>
      if b == [] then Some(Blob(Zeros(f.dataSize)))
      else if |b| != f.dataSize then None
      else Some(Blob(b))
  }

  /** The member's new contents.  Only submessages build on the old ones. */
  function DecodeValue(f: Field, old_: Value, raw: Raw): Option<Value>
    decreases f, 0
  {
    match f.ltype
    case SubMessage(sub) =>
      if old_.Msg? && raw.Octets? then
        match DecodeInto(sub, old_.slots, raw.b) case None => None case Some(m) => Some(Msg(m))
      else None
    case _ =>
      if f.Packable() then DecodeNumber(f, raw)
      else if raw.Octets? then DecodeBlob(f, raw.b)
      else None
  }

  /** Elements of a packed run, appended while there is room. */
  function DecodePacked(f: Field, items: seq<Value>, b: seq<byte>): Option<seq<Value>>
    decreases |b|
  {
    if b == [] then Some(items)
    else if |items| >= f.arraySize then None
    else
      match ReadRaw(NaturalShape(f.ltype), b)
      case Bad => None
      case Good(raw, n) =>
        if n == 0 then None
        else
          match DecodeNumber(f, raw)
          case None => None
          case Some(v) => DecodePacked(f, items + [v], b[n..])
  }

  /** One element of a packed run. */
  lemma {:induction false} PackedStep(f: Field, items: seq<Value>, b: seq<byte>)
    requires f.Packable() && b != [] && |items| < f.arraySize
    ensures var r := ReadRaw(NaturalShape(f.ltype), b);
            DecodePacked(f, items, b) ==
            if r.Bad? || DecodeNumber(f, r.value).None? then None
            else DecodePacked(f, items + [DecodeNumber(f, r.value).value], b[r.len..])
  {
    match ReadRaw(NaturalShape(f.ltype), b)
    case Bad =>
    case Good(_, n) => if NaturalShape(f.ltype).Word64? { Varint.ExtentBound(b); }
    hide DecodeNumber;
  }

  function DecodeSlot(f: Field, slot: Slot, wt: nat, raw: Raw): Option<Slot>
    decreases f, 1
  {
    match (f.htype, slot)
    case (Required, Single(v)) => ToSlot(DecodeValue(f, v, raw), w => Single(w))
    case (Optional, Flagged(_, v)) => ToSlot(DecodeValue(f, v, raw), w => Flagged(true, w))
    case (Optional, Single(v)) => ToSlot(DecodeValue(f, v, raw), w => Single(w))
    case (Repeated, Array(items)) =>
      if Packed(f, wt) then
        if raw.Octets? then
          match DecodePacked(f, items, raw.b) case None => None case Some(vs) => Some(Array(vs))
        else None
      else if |items| >= f.arraySize then None
      else ToSlot(DecodeValue(f, DefaultValue(f), raw), w => Array(items + [w]))
    case (OneOf, Union(_, _)) => ToSlot(DecodeValue(f, DefaultValue(f), raw), w => Union(f.tag, w))
    case _ => None
  }

  function ToSlot(v: Option<Value>, wrap: Value -> Slot): Option<Slot> {
    match v case None => None case Some(w) => Some(wrap(w))
  }

  // ----- a whole message

  /** The struct, the fixed-count array being filled, and the fields met so far. */
  datatype State = State(slots: seq<Slot>, run: Option<nat>, seen: set<nat>)

  predicate RunComplete(fields: seq<Field>, st: State) {
    match st.run
    case None => true
    case Some(j) =>
      j < |fields| && j < |st.slots| && st.slots[j].Array? && |st.slots[j].items| == fields[j].arraySize
  }

  /** Entering a fixed-count array restarts it, provided the previous one was filled. */
  function EnterField(fields: seq<Field>, st: State, i: nat): Option<State>
    requires i < |fields|
  {
    if !fields[i].FixedCount() || st.run == Some(i) then Some(st)
    else if !RunComplete(fields, st) || i >= |st.slots| then None
    else Some(st.(run := Some(i), slots := st.slots[i := Array([])]))
  }

  /** Old contents of a union are released before it is overwritten, which takes a field with the stored
      which_ tag, if that is set. */
  predicate Releasable(fields: seq<Field>, slot: Slot) {
    slot.Union? && slot.which != 0 ==> Find(fields, slot.which).Some?
  }

  function ApplyRecord(fields: seq<Field>, st: State, r: Record): Option<State>
    decreases fields, 0
  {
    match Find(fields, r.tag)
    case None => Some(st)
    case Some(i) =>
      match EnterField(fields, st, i)
      case None => None
      case Some(st') =>
        var h := Home(fields, i);
        if h >= |st'.slots| || !Releasable(fields, st'.slots[h]) then None
        else
          match DecodeSlot(fields[i], st'.slots[h], r.wt, r.raw)
          case None => None
          case Some(slot) => Some(st'.(slots := st'.slots[h := slot], seen := st'.seen + {i}))
  }

  function ApplyAll(fields: seq<Field>, st: State, rs: seq<Record>): Option<State>
    decreases fields, 1, |rs|
  {
    if rs == [] then Some(st)
    else
      match ApplyRecord(fields, st, rs[0])
      case None => None
      case Some(st') => ApplyAll(fields, st', rs[1..])
  }

  /** Number of required fields before field i. */
  function RequiredIndex(fields: seq<Field>, i: nat): nat
    requires i <= |fields|
  {
    if i == 0 then 0 else RequiredIndex(fields, i - 1) + (if fields[i - 1].htype.Required? then 1 else 0)
  }

  /** Each of the first 64 required fields was met. */
  predicate RequiredSeen(fields: seq<Field>, seen: set<nat>) {
    forall i :: 0 <= i < |fields| && fields[i].htype.Required? && RequiredIndex(fields, i) < MAX_REQUIRED_FIELDS
      ==> i in seen
  }

  function Finish(fields: seq<Field>, st: State): Option<seq<Slot>> {
    if RunComplete(fields, st) && RequiredSeen(fields, st.seen) then Some(st.slots) else None
  }

  /** The decoding loop from a state on. */
  function Run(fields: seq<Field>, st: State, s: seq<byte>): Option<State>
    decreases fields, 2
  {
    match Lex(fields, s) case None => None case Some(rs) => ApplyAll(fields, st, rs)
  }

  /** Decoding on top of existing contents. */
  function DecodeInto(fields: seq<Field>, slots: seq<Slot>, s: seq<byte>): Option<seq<Slot>>
    decreases fields, 3
  {
    match Run(fields, State(slots, None, {}), s)
    case None => None
    case Some(st) => Finish(fields, st)
  }

  function Decode(fields: seq<Field>, s: seq<byte>): Option<seq<Slot>> {
    DecodeInto(fields, Defaults(fields), s)
  }

  /** Consuming one record is applying it. */
  lemma {:induction false} RunStep(fields: seq<Field>, st: State, s: seq<byte>)
    requires s != [] && ReadRecord(fields, s).Item?
    ensures var r := ReadRecord(fields, s);
            Run(fields, st, s) ==
            match ApplyRecord(fields, st, r.rec) case None => None case Some(st') => Run(fields, st', s[r.len..])
  {
    var r := ReadRecord(fields, s);
    var rest := Lex(fields, s[r.len..]);
    if rest.Some? {
      var rs := [r.rec] + rest.value;
      assert rs[1..] == rest.value;
    }
  }

  /** A record of a known field, once its payload is decoded. */
  lemma {:induction false} ApplyKnown(fields: seq<Field>, st: State, r: Record, i: nat, st1: State, slot: Slot)
    requires Find(fields, r.tag) == Some(i) && EnterField(fields, st, i) == Some(st1)
    requires var h := Home(fields, i);
             && h < |st1.slots| && Releasable(fields, st1.slots[h])
             && DecodeSlot(fields[i], st1.slots[h], r.wt, r.raw) == Some(slot)
    ensures ApplyRecord(fields, st, r) ==
            Some(State(st1.slots[Home(fields, i) := slot], st1.run, st1.seen + {i}))
  {
  }
}
