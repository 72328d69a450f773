/** What decoding does to concatenated, extended and reordered encodings. */
module Streams {
  import opened Bits
  import opened Descriptor
  import opened Wire
  import opened Decoder

  // ----- concatenation

  lemma {:induction false} ApplyAllAppend(fields: seq<Field>, st: State, rs: seq<Record>, qs: seq<Record>)
    ensures ApplyAll(fields, st, rs + qs) ==
            match ApplyAll(fields, st, rs) case None => None case Some(st') => ApplyAll(fields, st', qs)
    decreases |rs|
  {
    if rs == [] {
      assert rs + qs == qs;
    } else {
      assert (rs + qs)[1..] == rs[1..] + qs;
      match ApplyRecord(fields, st, rs[0])
      case None =>
      case Some(st') => ApplyAllAppend(fields, st', rs[1..], qs);
    }
  }

  /** Decoding a whole prefix and then the rest is decoding everything. */
  lemma {:induction false} RunAppend(fields: seq<Field>, st: State, e: seq<byte>, t: seq<byte>)
    requires Whole(fields, e)
    ensures Run(fields, st, e).None? ==> Run(fields, st, e + t).None?
    ensures Run(fields, st, e).Some? ==> Run(fields, st, e + t) == Run(fields, Run(fields, st, e).value, t)
  {
    LexAppend(fields, e, t);
    if Lex(fields, t).Some? {
      ApplyAllAppend(fields, st, Lex(fields, e).value, Lex(fields, t).value);
    }
  }

  /** st with more fields counted as met. */
  function MoreSeen(st: Option<State>, extra: set<nat>): Option<State> {
    match st case None => None case Some(s) => Some(s.(seen := s.seen + extra))
  }

  lemma {:induction false} ApplyRecordSeen(fields: seq<Field>, st: State, r: Record, extra: set<nat>)
    ensures ApplyRecord(fields, st.(seen := st.seen + extra), r) == MoreSeen(ApplyRecord(fields, st, r), extra)
  {
    match Find(fields, r.tag)
    case None =>
    case Some(i) => assert st.seen + extra + {i} == st.seen + {i} + extra;
  }

  /** The fields already met do not influence what is stored. */
  lemma {:induction false} ApplyAllSeen(fields: seq<Field>, st: State, rs: seq<Record>, extra: set<nat>)
    ensures ApplyAll(fields, st.(seen := st.seen + extra), rs) == MoreSeen(ApplyAll(fields, st, rs), extra)
    decreases |rs|
  {
    if rs != [] {
      ApplyRecordSeen(fields, st, rs[0], extra);
      match ApplyRecord(fields, st, rs[0])
      case None =>
      case Some(st') => ApplyAllSeen(fields, st', rs[1..], extra);
    }
  }

  /** The first fixed-count array among the records. */
  function FirstFixedCount(fields: seq<Field>, rs: seq<Record>): Option<nat> {
    if rs == [] then None
    else if FixedCountRecord(fields, rs[0]) then Find(fields, rs[0].tag)
    else FirstFixedCount(fields, rs[1..])
  }

  /** The last one. */
  function LastFixedCount(fields: seq<Field>, rs: seq<Record>): Option<nat> {
    if rs == [] then None
    else
      var r := rs[|rs| - 1];
      if FixedCountRecord(fields, r) then Find(fields, r.tag) else LastFixedCount(fields, rs[..|rs| - 1])
  }

  predicate FixedCountRecord(fields: seq<Field>, r: Record) {
    match Find(fields, r.tag) case None => false case Some(i) => fields[i].FixedCount()
  }

  /** A filled fixed-count array left over from before. */
  predicate Filled(fields: seq<Field>, st: State, j: nat) {
    && j < |fields| && j < |st.slots| && fields[j].FixedCount()
    && st.slots[j].Array? && |st.slots[j].items| == fields[j].arraySize
  }

  /** Records outside fixed-count arrays neither use nor move the run. */
  lemma {:induction false} PlainRecord(fields: seq<Field>, st: State, r: Record, run: Option<nat>)
    requires !FixedCountRecord(fields, r)
    ensures ApplyRecord(fields, st.(run := run), r) ==
            match ApplyRecord(fields, st, r) case None => None case Some(st') => Some(st'.(run := run))
    ensures ApplyRecord(fields, st, r).Some? ==> ApplyRecord(fields, st, r).value.run == st.run
    ensures forall j :: Filled(fields, st, j) && ApplyRecord(fields, st, r).Some? ==>
              Filled(fields, ApplyRecord(fields, st, r).value, j)
  {
    match Find(fields, r.tag)
    case None =>
    case Some(i) => HomeKind(fields, i);
  }

  /** Carrying on after a filled array is the same as starting afresh, unless its own elements come
      next. */
  lemma {:induction false} FreshStart(fields: seq<Field>, st: State, rs: seq<Record>, j: nat)
    requires st.run == None && Filled(fields, st, j)
    requires FirstFixedCount(fields, rs) != Some(j)
    ensures var a, b := ApplyAll(fields, st, rs), ApplyAll(fields, st.(run := Some(j)), rs);
            a == b ||
            (a.Some? && b == Some(a.value.(run := Some(j))) && a.value.run == None && Filled(fields, a.value, j))
    decreases |rs|
  {
    if rs != [] {
      var r := rs[0];
      if FixedCountRecord(fields, r) {
        assert ApplyRecord(fields, st, r) == ApplyRecord(fields, st.(run := Some(j)), r);
      } else {
        PlainRecord(fields, st, r, Some(j));
        match ApplyRecord(fields, st, r)
        case None =>
        case Some(st') => FreshStart(fields, st', rs[1..], j);
      }
    }
  }

  /** The array being filled afresh in one state, and the state that carried on with it full. */
  predicate Overfull(fields: seq<Field>, a: State, b: State, j: nat) {
    && a.run == Some(j) && b.run == Some(j) && Filled(fields, b, j) && fields[j].arraySize > 0
    && |a.slots| == |b.slots| && a.slots[j] == Array([])
    && b.slots == a.slots[j := b.slots[j]]
  }

  /** Elements of a filled array do not fit: only empty packed runs pass. */
  lemma {:induction false} OverfullRecord(fields: seq<Field>, a: State, b: State, j: nat, r: Record)
    requires Overfull(fields, a, b, j) && ApplyRecord(fields, b, r).Some? && ApplyRecord(fields, a, r).Some?
    requires FixedCountRecord(fields, r) ==> Find(fields, r.tag) == Some(j)
    ensures Overfull(fields, ApplyRecord(fields, a, r).value, ApplyRecord(fields, b, r).value, j)
  {
    var i := Find(fields, r.tag);
    if i.Some? {
      HomeKind(fields, i.value);
      var h := Home(fields, i.value);
      if i.value == j {
        assert DecodeSlot(fields[j], b.slots[j], r.wt, r.raw).Some?;
        assert Packed(fields[j], r.wt) && r.raw.Octets? && r.raw.b == [];
      } else {
        assert h != j;
      }
    }
  }

  /** Carrying on with a full array cannot succeed where a fresh start does. */
  lemma {:induction false} OverfullFails(fields: seq<Field>, a: State, b: State, rs: seq<Record>, j: nat)
    requires Overfull(fields, a, b, j)
    requires ApplyAll(fields, a, rs).Some? && RunComplete(fields, ApplyAll(fields, a, rs).value)
    ensures ApplyAll(fields, b, rs).None?
    decreases |rs|
  {
    if rs != [] && ApplyRecord(fields, b, rs[0]).Some? {
      var r := rs[0];
      assert !RunComplete(fields, a);
      OverfullRecord(fields, a, b, j, r);
      OverfullFails(fields, ApplyRecord(fields, a, r).value, ApplyRecord(fields, b, r).value, rs[1..], j);
    }
  }

  lemma {:induction false} ClashFails(fields: seq<Field>, st: State, rs: seq<Record>, j: nat)
    requires st.run == None && Filled(fields, st, j) && fields[j].arraySize > 0
    requires FirstFixedCount(fields, rs) == Some(j)
    requires ApplyAll(fields, st, rs).Some? && RunComplete(fields, ApplyAll(fields, st, rs).value)
    ensures ApplyAll(fields, st.(run := Some(j)), rs).None?
    decreases |rs|
  {
    var r := rs[0];
    if FixedCountRecord(fields, r) {
      var a := st.(run := Some(j), slots := st.slots[j := Array([])]);
      assert ApplyRecord(fields, st, r) == ApplyRecord(fields, a, r);
      OverfullFails(fields, a, st.(run := Some(j)), rs, j);
    } else {
      PlainRecord(fields, st, r, Some(j));
      ClashFails(fields, ApplyRecord(fields, st, r).value, rs[1..], j);
    }
  }

  /** The array being filled at the end is the last fixed-count one among the records. */
  lemma {:induction false} RunIsLast(fields: seq<Field>, st: State, rs: seq<Record>)
    requires st.run == None && ApplyAll(fields, st, rs).Some?
    ensures ApplyAll(fields, st, rs).value.run == LastFixedCount(fields, rs)
    ensures LastFixedCount(fields, rs).Some? ==>
              LastFixedCount(fields, rs).value < |fields| && fields[LastFixedCount(fields, rs).value].FixedCount()
    decreases |rs|
  {
    if rs != [] {
      var n := |rs| - 1;
      ApplyAllAppend(fields, st, rs[..n], [rs[n]]);
      assert rs[..n] + [rs[n]] == rs;
      RunIsLast(fields, st, rs[..n]);
      var mid := ApplyAll(fields, st, rs[..n]).value;
      assert [rs[n]][1..] == [];
      assert ApplyAll(fields, mid, [rs[n]]) == ApplyRecord(fields, mid, rs[n]);
      hide ApplyAll, DecodeSlot, Home;
    }
  }

  /** The first records end in, and the second ones begin with, the same nonempty fixed-count array. */
  predicate Clash(fields: seq<Field>, rs: seq<Record>, qs: seq<Record>) {
    match LastFixedCount(fields, rs)
    case None => false
    case Some(j) => j < |fields| && fields[j].arraySize > 0 && FirstFixedCount(fields, qs) == Some(j)
  }

  /** Decoding e1 and then e2 on top of it is decoding their concatenation, except when the two
      clash on a fixed-count array: then the concatenation is refused. */
  lemma {:induction false} MergeExactly(fields: seq<Field>, m: seq<Slot>, e1: seq<byte>, e2: seq<byte>)
    requires Whole(fields, e1) && DecodeInto(fields, m, e1).Some?
    requires DecodeInto(fields, DecodeInto(fields, m, e1).value, e2).Some?
    ensures Lex(fields, e1).Some? && Lex(fields, e2).Some?
    ensures DecodeInto(fields, m, e1 + e2) ==
            if Clash(fields, Lex(fields, e1).value, Lex(fields, e2).value) then None
            else DecodeInto(fields, DecodeInto(fields, m, e1).value, e2)
  {
    var st0 := State(m, None, {});
    var st1 := Run(fields, st0, e1).value;
    var rs := Lex(fields, e2).value;
    RunAppend(fields, st0, e1, e2);
    RunIsLast(fields, st0, Lex(fields, e1).value);
    var alone := State(st1.slots, None, {});
    var carried := alone.(run := st1.run);
    assert st1 == carried.(seen := carried.seen + st1.seen);
    ApplyAllSeen(fields, carried, rs, st1.seen);
    hide ApplyAll, ApplyRecord, Lex, LastFixedCount;
    if Clash(fields, Lex(fields, e1).value, rs) {
      ClashFails(fields, alone, rs, st1.run.value);
    } else if st1.run.Some? && FirstFixedCount(fields, rs) == st1.run {
      EmptyArrayStart(fields, alone, rs, st1.run.value);
    } else if st1.run.Some? {
      FreshStart(fields, alone, rs, st1.run.value);
    }
  }

  /** An array of size zero never clashes. */
  lemma {:induction false} EmptyArrayStart(fields: seq<Field>, st: State, rs: seq<Record>, j: nat)
    requires st.run == None && Filled(fields, st, j) && fields[j].arraySize == 0
    requires FirstFixedCount(fields, rs) == Some(j)
    ensures ApplyAll(fields, st, rs) == ApplyAll(fields, st.(run := Some(j)), rs)
    decreases |rs|
  {
    var r := rs[0];
    if FixedCountRecord(fields, r) {
      assert st.slots[j := Array([])] == st.slots;
    } else {
      PlainRecord(fields, st, r, Some(j));
      if ApplyRecord(fields, st, r).Some? {
        EmptyArrayStart(fields, ApplyRecord(fields, st, r).value, rs[1..], j);
      }
    }
  }

  /** The documented merge does fail: one element of a fixed-count array of size one, sent twice. */
  lemma {:induction false} MergeFails()
    ensures var f := Field(1, UVarintType, Repeated, 0, 0, 4, 1, None);
            var e := [0x08, 0x07];
            && Whole([f], e)
            && DecodeInto([f], [Array([])], e) == Some([Array([Num(7)])])
            && DecodeInto([f], [Array([Num(7)])], e) == Some([Array([Num(7)])])
            && DecodeInto([f], [Array([])], e + e) == None
  {
    var f := Field(1, UVarintType, Repeated, 0, 0, 4, 1, None);
    var e := [0x08, 0x07];
    var r := Record(1, 0, Word(7));
    assert e[1..] == [0x07] && e[2..] == [];
    assert ReadRecord([f], e) == Item(r, 2);
    assert Lex([f], []) == Some([]);
    assert [r] + [] == [r];
    assert Lex([f], e) == Some([r]);
    assert DecodeValue(f, DefaultValue(f), Word(7)) == Some(Num(7));
    MergeFailsFrom(f, r, []);
    MergeFailsFrom(f, r, [Num(7)]);
    MergeExactly([f], [Array([])], e, e);
  }

  lemma {:induction false} MergeFailsFrom(f: Field, r: Record, items: seq<Value>)
    requires f == Field(1, UVarintType, Repeated, 0, 0, 4, 1, None) && r == Record(1, 0, Word(7)) && |items| <= 1
    ensures ApplyAll([f], State([Array(items)], None, {}), [r]) == Some(State([Array([Num(7)])], Some(0), {0}))
  {
    var st := State([Array(items)], None, {});
    assert Find([f], 1) == Some(0);
    assert st.slots[0 := Array([])] == [Array([])];
    assert [Array([])][0 := Array([Num(7)])] == [Array([Num(7)])];
    assert [] + [Num(7)] == [Num(7)];
    assert EnterField([f], st, 0) == Some(State([Array([])], Some(0), {}));
    assert DecodeSlot(f, Array([]), 0, Word(7)) == Some(Array([Num(7)]));
    assert st.seen + {0} == {0};
    assert ApplyRecord([f], st, r) == Some(State([Array([Num(7)])], Some(0), {0}));
    assert [r][1..] == [];
  }

  /** The merge law inside a message: a submessage that comes in two parts is the one whose payload is both parts, one
      after the other, unless these clash on a fixed-count array. */
  lemma {:induction false} SubmessageParts(f: Field, v: Value, p: seq<byte>, q: seq<byte>)
    requires f.ltype.SubMessage? && v.Msg? && Whole(f.ltype.sub, p)
    requires DecodeValue(f, v, Octets(p)).Some? && DecodeValue(f, DecodeValue(f, v, Octets(p)).value, Octets(q)).Some?
    ensures Lex(f.ltype.sub, p).Some? && Lex(f.ltype.sub, q).Some?
    ensures DecodeValue(f, v, Octets(p + q)) ==
            if Clash(f.ltype.sub, Lex(f.ltype.sub, p).value, Lex(f.ltype.sub, q).value) then None
            else DecodeValue(f, DecodeValue(f, v, Octets(p)).value, Octets(q))
  {
    hide DecodeInto, Whole, Lex, Clash;
    MergeExactly(f.ltype.sub, v.slots, p, q);
  }

  // ----- unknown fields

  lemma {:induction false} SkipRecord(fields: seq<Field>, st: State, u: seq<byte>, t: seq<byte>)
    requires ReadRecord(fields, u).Item? && ReadRecord(fields, u).len == |u|
    requires Find(fields, ReadRecord(fields, u).rec.tag).None?
    ensures Run(fields, st, u + t) == Run(fields, st, t)
  {
    assert (u + t)[..|u|] == u[..|u|];
    ReadRecordLocal(fields, u, u + t);
    assert (u + t)[|u|..] == t;
    RunStep(fields, st, u + t);
  }

  /** One unknown field at a field boundary changes nothing. */
  lemma {:induction false} UnknownFieldTransparent(fields: seq<Field>, m: seq<Slot>, e1: seq<byte>, u: seq<byte>, e2: seq<byte>)
    requires Whole(fields, e1)
    requires ReadRecord(fields, u).Item? && ReadRecord(fields, u).len == |u|
    requires Find(fields, ReadRecord(fields, u).rec.tag).None?
    ensures DecodeInto(fields, m, e1 + u + e2) == DecodeInto(fields, m, e1 + e2)
  {
    hide Run, Whole, ReadRecord, Finish;
    var st := State(m, None, {});
    RunAppend(fields, st, e1, u + e2);
    RunAppend(fields, st, e1, e2);
    assert e1 + u + e2 == e1 + (u + e2);
    if Run(fields, st, e1).Some? { SkipRecord(fields, Run(fields, st, e1).value, u, e2); }
  }

  // ----- reordering

  /** The records that land in slot h. */
  function Mine(fields: seq<Field>, h: nat, rs: seq<Record>): seq<Record> {
    if rs == [] then []
    else if LandsIn(fields, rs[0], h) then [rs[0]] + Mine(fields, h, rs[1..])
    else Mine(fields, h, rs[1..])
  }

  predicate LandsIn(fields: seq<Field>, r: Record, h: nat) {
    match Find(fields, r.tag) case None => false case Some(i) => Home(fields, i) == h
  }

  /** Folding the records of one slot over its contents. */
  function FoldSlot(fields: seq<Field>, slot: Slot, rs: seq<Record>): Option<Slot>
    decreases |rs|
  {
    if rs == [] then Some(slot)
    else
      match Find(fields, rs[0].tag)
      case None => FoldSlot(fields, slot, rs[1..])
      case Some(i) =>
        if !Releasable(fields, slot) then None
        else
          match DecodeSlot(fields[i], slot, rs[0].wt, rs[0].raw)
          case None => None
          case Some(slot') => FoldSlot(fields, slot', rs[1..])
  }

  /** The fields that occur among the records. */
  function Occurring(fields: seq<Field>, rs: seq<Record>): set<nat> {
    if rs == [] then {}
    else
      match Find(fields, rs[0].tag)
      case None => Occurring(fields, rs[1..])
      case Some(i) => {i} + Occurring(fields, rs[1..])
  }

  /** At most one fixed-count array: the case the decoder's single run counter is made for. */
  predicate OneFixedCount(fields: seq<Field>) {
    forall i, j :: 0 <= i < j < |fields| ==> !(fields[i].FixedCount() && fields[j].FixedCount())
  }

  /** What a slot's own records build on: a fixed-count array starts afresh when first met. */
  function Base(fields: seq<Field>, st: State, h: nat, own: seq<Record>): Slot
    requires h < |fields| == |st.slots|
  {
    if fields[h].FixedCount() && st.run.None? && own != [] then Array([]) else st.slots[h]
  }

  predicate OwnRun(fields: seq<Field>, st: State) {
    |st.slots| == |fields| && (st.run.Some? ==> st.run.value < |fields| && fields[st.run.value].FixedCount())
  }

  /** Slot h after folding its own records over its base. */
  function SlotResult(fields: seq<Field>, st: State, rs: seq<Record>, h: nat): Option<Slot>
    requires h < |fields| == |st.slots|
  {
    var own := Mine(fields, h, rs);
    FoldSlot(fields, Base(fields, st, h, own), own)
  }

  /** Decoding works slot by slot: each slot sees only its own records. */
  lemma {:induction false} Slotwise(fields: seq<Field>, st: State, rs: seq<Record>)
    requires OneFixedCount(fields) && OwnRun(fields, st)
    ensures match ApplyAll(fields, st, rs)
            case Some(st') =>
              && OwnRun(fields, st') && st'.seen == st.seen + Occurring(fields, rs)
              && (st'.run.Some? <==> st.run.Some? || MeetsFixedCount(fields, rs))
              && forall h :: 0 <= h < |fields| ==> SlotResult(fields, st, rs, h) == Some(st'.slots[h])
            case None => exists h :: 0 <= h < |fields| && SlotResult(fields, st, rs, h) == None
    decreases |rs|
  {
    if rs != [] {
      var r := rs[0];
      match Find(fields, r.tag)
      case None =>
        assert ApplyRecord(fields, st, r) == Some(st);
        assert forall h :: 0 <= h < |fields| ==> SlotResult(fields, st, rs, h) == SlotResult(fields, st, rs[1..], h);
        Slotwise(fields, st, rs[1..]);
      case Some(i) =>
        var st1 := SlotwiseStep(fields, st, rs, i);
        if st1.Some? {
          Slotwise(fields, st1.value, rs[1..]);
          hide SlotResult, ApplyRecord, OwnRun;
          assert forall k :: 0 <= k < |rs[1..]| ==> rs[1..][k] == rs[k + 1];
          assert st.seen + {i} + Occurring(fields, rs[1..]) == st.seen + Occurring(fields, rs);
        }
    }
  }

  predicate MeetsFixedCount(fields: seq<Field>, rs: seq<Record>) {
    exists k :: 0 <= k < |rs| && FixedCountRecord(fields, rs[k])
  }

  /** One record of field i: its own slot takes a step, the others only lose sight of it. */
  lemma {:induction false} SlotwiseStep(fields: seq<Field>, st: State, rs: seq<Record>, i: nat) returns (next: Option<State>)
    requires OneFixedCount(fields) && OwnRun(fields, st) && rs != [] && Find(fields, rs[0].tag) == Some(i)
    ensures next == ApplyRecord(fields, st, rs[0])
    ensures next.None? ==> Home(fields, i) < |fields| && SlotResult(fields, st, rs, Home(fields, i)) == None
    ensures next.Some? ==>
              && OwnRun(fields, next.value) && next.value.seen == st.seen + {i}
              && (next.value.run.Some? <==> st.run.Some? || fields[i].FixedCount())
              && forall h :: 0 <= h < |fields| ==>
                   SlotResult(fields, st, rs, h) == SlotResult(fields, next.value, rs[1..], h)
  {
    next := ApplyRecord(fields, st, rs[0]);
    var h0 := Home(fields, i);
    HomeKind(fields, i);
    assert EnterField(fields, st, i).Some?;
    var st' := EnterField(fields, st, i).value;
    var own, rest := Mine(fields, h0, rs), Mine(fields, h0, rs[1..]);
    assert own == [rs[0]] + rest;
    assert Base(fields, st, h0, own) == st'.slots[h0];
    FoldFirst(fields, st'.slots[h0], rs[0], rest);
    if next.Some? {
      forall h | 0 <= h < |fields| && h != h0
        ensures SlotResult(fields, st, rs, h) == SlotResult(fields, next.value, rs[1..], h)
      {
        assert Mine(fields, h, rs) == Mine(fields, h, rs[1..]);
        hide FoldSlot, DecodeSlot, Mine;
      }
    }
  }

  lemma {:induction false} FoldFirst(fields: seq<Field>, slot: Slot, r: Record, rs: seq<Record>)
    requires Find(fields, r.tag).Some?
    ensures FoldSlot(fields, slot, [r] + rs) ==
            if !Releasable(fields, slot) then None
            else match DecodeSlot(fields[Find(fields, r.tag).value], slot, r.wt, r.raw)
                 case None => None case Some(slot') => FoldSlot(fields, slot', rs)
  {
    assert ([r] + rs)[1..] == rs;
  }

  lemma {:induction false} OccurringMine(fields: seq<Field>, rs: seq<Record>, i: nat)
    requires i < |fields|
    ensures i in Occurring(fields, rs) <==> i in Occurring(fields, Mine(fields, Home(fields, i), rs))
  {
    if rs != [] {
      var h := Home(fields, i);
      OccurringMine(fields, rs[1..], i);
      if LandsIn(fields, rs[0], h) {
        assert ([rs[0]] + Mine(fields, h, rs[1..]))[1..] == Mine(fields, h, rs[1..]);
      }
    }
  }

  lemma {:induction false} OccurringInRange(fields: seq<Field>, rs: seq<Record>)
    ensures forall i :: i in Occurring(fields, rs) ==> i < |fields|
  {
    if rs != [] { OccurringInRange(fields, rs[1..]); }
  }

  // Streams as lists of whole fields.

  /** e is one field, exactly. */
  predicate OneField(fields: seq<Field>, e: seq<byte>) {
    ReadRecord(fields, e).Item? && ReadRecord(fields, e).len == |e|
  }

  predicate AllFields(fields: seq<Field>, es: seq<seq<byte>>) {
    forall k :: 0 <= k < |es| ==> OneField(fields, es[k])
  }

  function Concat(es: seq<seq<byte>>): seq<byte> {
    if es == [] then [] else es[0] + Concat(es[1..])
  }

  function Records(fields: seq<Field>, es: seq<seq<byte>>): (rs: seq<Record>)
    requires AllFields(fields, es)
    ensures |rs| == |es|
  {
    if es == [] then []
    else assert OneField(fields, es[0]); [ReadRecord(fields, es[0]).rec] + Records(fields, es[1..])
  }

  /** Whole fields, put one after the other in any order, split into just these fields again. */
  lemma {:induction false} LexConcat(fields: seq<Field>, es: seq<seq<byte>>, t: seq<byte>)
    requires AllFields(fields, es)
    ensures Lex(fields, Concat(es) + t) ==
            match Lex(fields, t) case None => None case Some(rs) => Some(Records(fields, es) + rs)
    decreases |es|
  {
    hide ReadRecord;
    if es == [] {
      assert Concat(es) + t == t;
      assert Lex(fields, t).Some? ==> [] + Lex(fields, t).value == Lex(fields, t).value;
      return;
    }
    assert OneField(fields, es[0]);
    var s, rest := Concat(es) + t, Concat(es[1..]) + t;
    assert s == es[0] + rest && s[..|es[0]|] == es[0][..|es[0]|];
    ReadRecordLocal(fields, es[0], s);
    assert s[|es[0]|..] == rest;
    LexConcat(fields, es[1..], t);
    var r := ReadRecord(fields, es[0]).rec;
    if Lex(fields, t).Some? {
      assert [r] + (Records(fields, es[1..]) + Lex(fields, t).value) == Records(fields, es) + Lex(fields, t).value;
    }
  }

  /** The fields agree, in order, on every member of the struct: on each field and each union. */
  predicate SameShares(fields: seq<Field>, es: seq<seq<byte>>, fs: seq<seq<byte>>)
    requires AllFields(fields, es) && AllFields(fields, fs)
  {
    forall h :: 0 <= h < |fields| ==> Mine(fields, h, Records(fields, es)) == Mine(fields, h, Records(fields, fs))
  }

  /** Records that agree on every member leave the loop in the same state. */
  lemma {:induction false} SameState(fields: seq<Field>, st: State, rs: seq<Record>, qs: seq<Record>)
    requires OneFixedCount(fields) && OwnRun(fields, st)
    requires forall h :: 0 <= h < |fields| ==> Mine(fields, h, rs) == Mine(fields, h, qs)
    ensures ApplyAll(fields, st, rs) == ApplyAll(fields, st, qs)
  {
    Slotwise(fields, st, rs);
    Slotwise(fields, st, qs);
    assert forall h :: 0 <= h < |fields| ==> SlotResult(fields, st, rs, h) == SlotResult(fields, st, qs, h);
    var a, b := ApplyAll(fields, st, rs), ApplyAll(fields, st, qs);
    if a.Some? && b.Some? {
      SameOccurring(fields, rs, qs);
      hide SlotResult, ApplyAll, Mine;
      assert a.value.slots == b.value.slots;
      assert a.value.run == b.value.run;
      assert a.value.seen == b.value.seen;
    }
  }

  /** Any order of whole fields that keeps the order within each field and each union decodes with the
      same success and to the same message, whatever follows. */
  lemma {:induction false} FieldOrderIrrelevant(fields: seq<Field>, m: seq<Slot>, es: seq<seq<byte>>, fs: seq<seq<byte>>, t: seq<byte>)
    requires OneFixedCount(fields) && |m| == |fields|
    requires AllFields(fields, es) && AllFields(fields, fs) && SameShares(fields, es, fs)
    ensures DecodeInto(fields, m, Concat(es) + t) == DecodeInto(fields, m, Concat(fs) + t)
  {
    hide Concat, Records, OneField, Lex, ApplyAll, Finish;
    var st := State(m, None, {});
    LexConcat(fields, es, t);
    LexConcat(fields, fs, t);
    if Lex(fields, t).Some? {
      var rs, qs, ts := Records(fields, es), Records(fields, fs), Lex(fields, t).value;
      SameState(fields, st, rs, qs);
      ApplyAllAppend(fields, st, rs, ts);
      ApplyAllAppend(fields, st, qs, ts);
    }
  }

  // ----- when the order matters

  /** The records fill fixed-count array i from scratch. */
  predicate Fills(fields: seq<Field>, i: nat, rs: seq<Record>)
    requires i < |fields|
  {
    && rs != [] && (forall k :: 0 <= k < |rs| ==> Find(fields, rs[k].tag) == Some(i))
    && var r := FoldSlot(fields, Array([]), rs);
       r.Some? && r.value.Array? && |r.value.items| == fields[i].arraySize
  }

  /** Elements of the array being filled are folded into it. */
  lemma {:induction false} FillOn(fields: seq<Field>, st: State, i: nat, rs: seq<Record>)
    requires i < |fields| == |st.slots| && fields[i].FixedCount() && st.run == Some(i)
    requires forall k :: 0 <= k < |rs| ==> Find(fields, rs[k].tag) == Some(i)
    ensures var r := FoldSlot(fields, st.slots[i], rs);
            ApplyAll(fields, st, rs) ==
            if r.None? then None
            else Some(State(st.slots[i := r.value], Some(i), st.seen + if rs == [] then {} else {i}))
    decreases |rs|
  {
    if rs == [] {
      assert st.slots[i := st.slots[i]] == st.slots && st.seen + {} == st.seen;
      return;
    }
    assert Home(fields, i) == i by { HomeFixed(fields, i); }
    var next := ApplyRecord(fields, st, rs[0]);
    var slot := DecodeSlot(fields[i], st.slots[i], rs[0].wt, rs[0].raw);
    assert next == if slot.None? then None else Some(State(st.slots[i := slot.value], Some(i), st.seen + {i}));
    hide ApplyRecord, DecodeSlot;
    if next.Some? {
      FillOn(fields, next.value, i, rs[1..]);
      hide FoldSlot, ApplyAll;
      assert st.seen + {i} + {i} == st.seen + {i} && st.seen + {i} + {} == st.seen + {i};
      var r := FoldSlot(fields, slot.value, rs[1..]);
      if r.Some? { assert st.slots[i := slot.value][i := r.value] == st.slots[i := r.value]; }
    }
  }

  /** A filled array, or none, before: the array starts afresh and is filled. */
  lemma {:induction false} FillAfresh(fields: seq<Field>, st: State, i: nat, rs: seq<Record>)
    requires i < |fields| == |st.slots| && fields[i].FixedCount() && Fills(fields, i, rs)
    requires st.run != Some(i) && RunComplete(fields, st)
    ensures var r := ApplyAll(fields, st, rs);
            && r.Some? && r.value.run == Some(i) && Filled(fields, r.value, i) && |r.value.slots| == |fields|
            && r.value.seen == st.seen + {i}
  {
    var st' := State(st.slots[i := Array([])], Some(i), st.seen);
    assert EnterField(fields, st, i) == Some(st');
    assert ApplyRecord(fields, st, rs[0]) == ApplyRecord(fields, st', rs[0]);
    assert ApplyAll(fields, st, rs) == ApplyAll(fields, st', rs);
    hide ApplyAll, ApplyRecord, FoldSlot;
    FillOn(fields, st', i, rs);
  }

  /** The array is full already: its elements are too many. */
  lemma {:induction false} FillAgainFails(fields: seq<Field>, st: State, i: nat, rs: seq<Record>)
    requires i < |fields| == |st.slots| && Fills(fields, i, rs) && fields[i].arraySize > 0
    requires st.run == Some(i) && Filled(fields, st, i)
    ensures ApplyAll(fields, st, rs).None?
  {
    var fresh_ := st.(slots := st.slots[i := Array([])]);
    FillOn(fields, fresh_, i, rs);
    hide FoldSlot, ApplyAll;
    OverfullFails(fields, fresh_, st, rs, i);
  }

  lemma {:induction false} MineAppend(fields: seq<Field>, h: nat, rs: seq<Record>, qs: seq<Record>)
    ensures Mine(fields, h, rs + qs) == Mine(fields, h, rs) + Mine(fields, h, qs)
    decreases |rs|
  {
    if rs == [] {
      assert rs + qs == qs;
    } else {
      assert (rs + qs)[1..] == rs[1..] + qs;
      MineAppend(fields, h, rs[1..], qs);
    }
  }

  lemma {:induction false} MineOfOne(fields: seq<Field>, h: nat, i: nat, rs: seq<Record>)
    requires i < |fields| && forall k :: 0 <= k < |rs| ==> Find(fields, rs[k].tag) == Some(i)
    ensures Mine(fields, h, rs) == if Home(fields, i) == h then rs else []
    decreases |rs|
  {
    if rs != [] { MineOfOne(fields, h, i, rs[1..]); }
  }

  lemma {:induction false} RecordsAppend(fields: seq<Field>, es: seq<seq<byte>>, fs: seq<seq<byte>>)
    requires AllFields(fields, es) && AllFields(fields, fs)
    ensures AllFields(fields, es + fs) && Records(fields, es + fs) == Records(fields, es) + Records(fields, fs)
    decreases |es|
  {
    hide OneField;
    if es == [] {
      assert es + fs == fs;
    } else {
      assert (es + fs)[1..] == es[1..] + fs;
      RecordsAppend(fields, es[1..], fs);
    }
  }

  /** es is a list of fields that fills array i. */
  predicate FillingFields(fields: seq<Field>, i: nat, es: seq<seq<byte>>)
    requires i < |fields|
  {
    AllFields(fields, es) && Fills(fields, i, Records(fields, es))
  }

  /** Array i is nonempty, and some fields fill it. */
  ghost predicate Fillable(fields: seq<Field>, i: nat)
    requires i < |fields|
  {
    fields[i].arraySize > 0 && exists es :: FillingFields(fields, i, es)
  }

  /** After a message that ends in full array j, elements for array i and then for j are accepted, and the
      other way round refused. */
  lemma {:induction false} SwapMatters(fields: seq<Field>, m: seq<Slot>, es: seq<seq<byte>>, i: nat, j: nat, a: seq<seq<byte>>, b: seq<seq<byte>>)
    requires |m| == |fields| && AllFields(fields, es) && i < |fields| && j < |fields| && i != j
    requires fields[i].FixedCount() && fields[j].FixedCount() && fields[j].arraySize > 0
    requires FillingFields(fields, i, a) && FillingFields(fields, j, b)
    requires DecodeInto(fields, m, Concat(es)).Some?
    requires LastFixedCount(fields, Records(fields, es)) == Some(j)
    ensures AllFields(fields, es + (a + b)) && AllFields(fields, es + (b + a))
    ensures SameShares(fields, es + (a + b), es + (b + a))
    ensures DecodeInto(fields, m, Concat(es + (a + b))).Some? && DecodeInto(fields, m, Concat(es + (b + a))).None?
  {
    var st := State(m, None, {});
    var rs, p, q := Records(fields, es), Records(fields, a), Records(fields, b);
    hide Concat, Records, OneField, Fills, Lex, DecodeInto, ApplyAll, LastFixedCount, Mine, Finish;
    RecordsAppend(fields, a, b);
    RecordsAppend(fields, b, a);
    RecordsAppend(fields, es, a + b);
    RecordsAppend(fields, es, b + a);
    Plainly(fields, m, es);
    Plainly(fields, m, es + (a + b));
    Plainly(fields, m, es + (b + a));
    ApplyAllAppend(fields, st, rs, p + q);
    ApplyAllAppend(fields, st, rs, q + p);
    RunIsLast(fields, st, rs);
    SlotsKept(fields, st, rs);
    FinishMore(fields, ApplyAll(fields, st, rs).value, i, j, p, q);
    SharesSwap(fields, rs, p, q, i, j);
  }

  /** The same from the state the message leaves. */
  lemma {:induction false} FinishMore(fields: seq<Field>, st: State, i: nat, j: nat, p: seq<Record>, q: seq<Record>)
    requires i < |fields| == |st.slots| && j < |fields| && i != j && Finish(fields, st).Some? && st.run == Some(j)
    requires fields[i].FixedCount() && fields[j].FixedCount() && fields[j].arraySize > 0
    requires Fills(fields, i, p) && Fills(fields, j, q)
    ensures var r := ApplyAll(fields, st, p + q); r.Some? && Finish(fields, r.value).Some?
    ensures ApplyAll(fields, st, q + p).None?
  {
    hide ApplyAll, Fills;
    ApplyAllAppend(fields, st, p, q);
    ApplyAllAppend(fields, st, q, p);
    RunFilled(fields, st, j);
    FillAgainFails(fields, st, j, q);
    FillAfresh(fields, st, i, p);
    FillAfresh(fields, ApplyAll(fields, st, p).value, j, q);
  }

  /** Decoding a list of whole fields is applying their records. */
  lemma {:induction false} Plainly(fields: seq<Field>, m: seq<Slot>, es: seq<seq<byte>>)
    requires AllFields(fields, es)
    ensures var r := ApplyAll(fields, State(m, None, {}), Records(fields, es));
            DecodeInto(fields, m, Concat(es)) == if r.None? then None else Finish(fields, r.value)
  {
    LexConcat(fields, es, []);
    assert Concat(es) + [] == Concat(es);
    assert Lex(fields, []) == Some([]);
    assert Records(fields, es) + [] == Records(fields, es);
  }

  lemma {:induction false} RunFilled(fields: seq<Field>, st: State, j: nat)
    requires j < |fields| && fields[j].FixedCount() && st.run == Some(j) && RunComplete(fields, st)
    ensures Filled(fields, st, j)
  {
  }

  lemma {:induction false} SlotsKept(fields: seq<Field>, st: State, rs: seq<Record>)
    requires ApplyAll(fields, st, rs).Some?
    ensures |ApplyAll(fields, st, rs).value.slots| == |st.slots| && st.seen <= ApplyAll(fields, st, rs).value.seen
    decreases |rs|
  {
    if rs != [] {
      SlotsKept(fields, ApplyRecord(fields, st, rs[0]).value, rs[1..]);
    }
  }

  lemma {:induction false} SharesSwap(fields: seq<Field>, rs: seq<Record>, p: seq<Record>, q: seq<Record>, i: nat, j: nat)
    requires i < |fields| && j < |fields| && i != j && fields[i].FixedCount() && fields[j].FixedCount()
    requires Fills(fields, i, p) && Fills(fields, j, q)
    ensures forall h :: 0 <= h < |fields| ==> Mine(fields, h, rs + (p + q)) == Mine(fields, h, rs + (q + p))
  {
    HomeKind(fields, i);
    HomeKind(fields, j);
    forall h | 0 <= h < |fields|
      ensures Mine(fields, h, rs + (p + q)) == Mine(fields, h, rs + (q + p))
    {
      ShareSwap(fields, h, rs, p, q, i, j);
    }
  }

  lemma {:induction false} ShareSwap(fields: seq<Field>, h: nat, rs: seq<Record>, p: seq<Record>, q: seq<Record>, i: nat, j: nat)
    requires i < |fields| && j < |fields| && Home(fields, i) != Home(fields, j)
    requires forall k :: 0 <= k < |p| ==> Find(fields, p[k].tag) == Some(i)
    requires forall k :: 0 <= k < |q| ==> Find(fields, q[k].tag) == Some(j)
    ensures Mine(fields, h, rs + (p + q)) == Mine(fields, h, rs + (q + p))
  {
    hide Mine, Home, Find;
    MineAppend(fields, h, rs, p + q);
    MineAppend(fields, h, rs, q + p);
    MineAppend(fields, h, p, q);
    MineAppend(fields, h, q, p);
    MineOfOne(fields, h, i, p);
    MineOfOne(fields, h, j, q);
    assert Mine(fields, h, p) + Mine(fields, h, q) == Mine(fields, h, q) + Mine(fields, h, p);
  }

  /** Order within the members is all that matters, on every struct. */
  ghost predicate OrderFree(fields: seq<Field>) {
    forall m, es, fs :: OrderFreeOn(fields, m, es, fs)
  }

  ghost predicate OrderFreeOn(fields: seq<Field>, m: seq<Slot>, es: seq<seq<byte>>, fs: seq<seq<byte>>) {
    |m| == |fields| && AllFields(fields, es) && AllFields(fields, fs) && SameShares(fields, es, fs) ==>
      DecodeInto(fields, m, Concat(es)) == DecodeInto(fields, m, Concat(fs))
  }

  /** Some list of whole fields decodes. */
  ghost predicate Decodable(fields: seq<Field>) {
    exists m, es :: |m| == |fields| && AllFields(fields, es) && DecodeInto(fields, m, Concat(es)).Some?
  }

  /** For descriptors whose messages can be decoded at all and whose fixed-count arrays can be filled, the
      order of fields is irrelevant exactly when there is at most one fixed-count array. */
  lemma {:induction false} OrderFreeExactly(fields: seq<Field>)
    requires Decodable(fields)
    requires forall i :: 0 <= i < |fields| && fields[i].FixedCount() ==> Fillable(fields, i)
    ensures OrderFree(fields) <==> OneFixedCount(fields)
  {
    if OneFixedCount(fields) {
      forall m, es, fs ensures OrderFreeOn(fields, m, es, fs) {
        hide Concat, DecodeInto, Records, Mine, OneField;
        if |m| == |fields| && AllFields(fields, es) && AllFields(fields, fs) && SameShares(fields, es, fs) {
          FieldOrderIrrelevant(fields, m, es, fs, []);
          assert Concat(es) + [] == Concat(es) && Concat(fs) + [] == Concat(fs);
        }
      }
    } else {
      var i, j :| 0 <= i < j < |fields| && fields[i].FixedCount() && fields[j].FixedCount();
      var m, es, fs := OrderCounterexample(fields, i, j);
      assert !OrderFreeOn(fields, m, es, fs);
    }
  }

  lemma {:induction false} OrderCounterexample(fields: seq<Field>, i: nat, j: nat)
    returns (m: seq<Slot>, es: seq<seq<byte>>, fs: seq<seq<byte>>)
    requires i < j < |fields| && fields[i].FixedCount() && fields[j].FixedCount() && Decodable(fields)
    requires forall k :: 0 <= k < |fields| && fields[k].FixedCount() ==> Fillable(fields, k)
    ensures !OrderFreeOn(fields, m, es, fs)
  {
    hide DecodeInto, Records, FillingFields, Concat, SameShares, OneField, AllFields;
    var e: seq<seq<byte>>;
    m, e :| |m| == |fields| && AllFields(fields, e) && DecodeInto(fields, m, Concat(e)).Some?;
    var last := LastFixedCount(fields, Records(fields, e));
    if last.None? {
      var a :| FillingFields(fields, i, a);
      EndWith(fields, m, e, i, a);
      e := e + a;
      last := Some(i);
    } else {
      LastInRange(fields, Records(fields, e));
    }
    var l := last.value;
    var k := if l == i then j else i;
    var a :| FillingFields(fields, k, a);
    var b :| FillingFields(fields, l, b);
    SwapMatters(fields, m, e, k, l, a, b);
    es, fs := e + (a + b), e + (b + a);
  }

  lemma {:induction false} LastInRange(fields: seq<Field>, rs: seq<Record>)
    requires LastFixedCount(fields, rs).Some?
    ensures var j := LastFixedCount(fields, rs).value; j < |fields| && fields[j].FixedCount()
    decreases |rs|
  {
    if !FixedCountRecord(fields, rs[|rs| - 1]) { LastInRange(fields, rs[..|rs| - 1]); }
  }

  /** A message without fixed-count elements can be made to end in array i. */
  lemma {:induction false} EndWith(fields: seq<Field>, m: seq<Slot>, es: seq<seq<byte>>, i: nat, a: seq<seq<byte>>)
    requires |m| == |fields| && AllFields(fields, es) && DecodeInto(fields, m, Concat(es)).Some?
    requires i < |fields| && fields[i].FixedCount() && FillingFields(fields, i, a)
    requires LastFixedCount(fields, Records(fields, es)).None?
    ensures AllFields(fields, es + a) && DecodeInto(fields, m, Concat(es + a)).Some?
    ensures LastFixedCount(fields, Records(fields, es + a)) == Some(i)
  {
    var st := State(m, None, {});
    var rs, p := Records(fields, es), Records(fields, a);
    RecordsAppend(fields, es, a);
    Plainly(fields, m, es);
    Plainly(fields, m, es + a);
    hide Concat, Records, AllFields, OneField, Lex, DecodeInto;
    ApplyAllAppend(fields, st, rs, p);
    var st1 := ApplyAll(fields, st, rs).value;
    RunIsLast(fields, st, rs);
    SlotsKept(fields, st, rs);
    FillAfresh(fields, st1, i, p);
    assert (rs + p)[|rs + p| - 1] == p[|p| - 1];
  }

  lemma {:induction false} SameOccurring(fields: seq<Field>, rs: seq<Record>, qs: seq<Record>)
    requires forall h :: 0 <= h < |fields| ==> Mine(fields, h, rs) == Mine(fields, h, qs)
    ensures Occurring(fields, rs) == Occurring(fields, qs)
    ensures MeetsFixedCount(fields, rs) == MeetsFixedCount(fields, qs)
  {
    OccurringInRange(fields, rs);
    OccurringInRange(fields, qs);
    forall i | 0 <= i < |fields|
      ensures i in Occurring(fields, rs) <==> i in Occurring(fields, qs)
    {
      OccurringMine(fields, rs, i);
      OccurringMine(fields, qs, i);
      assert Home(fields, i) < |fields|;
    }
    FixedCountOccurring(fields, rs);
    FixedCountOccurring(fields, qs);
  }

  lemma {:induction false} FixedCountOccurring(fields: seq<Field>, rs: seq<Record>)
    ensures MeetsFixedCount(fields, rs) <==> exists i :: i in Occurring(fields, rs) && 0 <= i < |fields| && fields[i].FixedCount()
  {
    if rs != [] {
      FixedCountOccurring(fields, rs[1..]);
      assert MeetsFixedCount(fields, rs) <==> FixedCountRecord(fields, rs[0]) || MeetsFixedCount(fields, rs[1..]) by {
        if MeetsFixedCount(fields, rs[1..]) {
          var k :| 0 <= k < |rs[1..]| && FixedCountRecord(fields, rs[1..][k]);
          assert FixedCountRecord(fields, rs[k + 1]);
        }
        if MeetsFixedCount(fields, rs) {
          var k :| 0 <= k < |rs| && FixedCountRecord(fields, rs[k]);
          assert k > 0 ==> rs[1..][k - 1] == rs[k];
        }
      }
    }
  }
}
