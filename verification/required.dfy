/** Required fields: what must be in a message for decoding it to succeed. */
module RequiredFields {
  import opened Bits
  import opened Descriptor
  import opened Wire
  import opened Decoder
  import opened Streams

  /** How many required fields stand before field i. */
  function RequiredBefore(fields: seq<Field>, i: nat): nat { |RequiredAmong(fields, i)| }

  function RequiredAmong(fields: seq<Field>, i: nat): set<nat> {
    set j: nat | j < i && j < |fields| && fields[j].htype.Required?
  }

  /** One of the first 64 required fields. */
  predicate Checked(fields: seq<Field>, i: nat) {
    i < |fields| && fields[i].htype.Required? && RequiredBefore(fields, i) < 64
  }

  /** Some record has the tag. */
  ghost predicate Occurs(rs: seq<Record>, tag: nat) { exists k :: 0 <= k < |rs| && rs[k].tag == tag }

  /** The fixed-count array that the records come to last, if any, is full. */
  predicate LastFilled(fields: seq<Field>, rs: seq<Record>, slots: seq<Slot>) {
    match LastFixedCount(fields, rs)
    case None => true
    case Some(j) => j < |fields| && j < |slots| && slots[j].Array? && |slots[j].items| == fields[j].arraySize
  }

  lemma {:induction false} IndexCounts(fields: seq<Field>, i: nat)
    requires i <= |fields|
    ensures RequiredIndex(fields, i) == RequiredBefore(fields, i)
  {
    if i > 0 {
      IndexCounts(fields, i - 1);
      var before := RequiredAmong(fields, i - 1);
      assert RequiredAmong(fields, i) == before + if fields[i - 1].htype.Required? then {i - 1} else {};
      assert i - 1 !in before;
    }
  }

  /** The fields met are those whose tags occur. */
  lemma {:induction false} MetOccurs(fields: seq<Field>, st: State, rs: seq<Record>, i: nat)
    requires DistinctTags(fields) && i < |fields| && ApplyAll(fields, st, rs).Some?
    ensures i in ApplyAll(fields, st, rs).value.seen <==> i in st.seen || Occurs(rs, fields[i].tag)
    decreases |rs|
  {
    if rs == [] { return; }
    var next := ApplyRecord(fields, st, rs[0]).value;
    RecordMeets(fields, st, rs[0], i);
    MetOccurs(fields, next, rs[1..], i);
    hide ApplyRecord, ApplyAll;
    if Occurs(rs, fields[i].tag) && rs[0].tag != fields[i].tag {
      var k :| 0 <= k < |rs| && rs[k].tag == fields[i].tag;
      assert rs[1..][k - 1] == rs[k];
    }
    if Occurs(rs[1..], fields[i].tag) {
      var k :| 0 <= k < |rs| - 1 && rs[1..][k].tag == fields[i].tag;
      assert rs[k + 1] == rs[1..][k];
    }
  }

  lemma {:induction false} RecordMeets(fields: seq<Field>, st: State, r: Record, i: nat)
    requires DistinctTags(fields) && i < |fields| && ApplyRecord(fields, st, r).Some?
    ensures i in ApplyRecord(fields, st, r).value.seen <==> i in st.seen || r.tag == fields[i].tag
  {
    hide DecodeSlot;
  }

  /** A stream that splits into records which can all be stored decodes exactly when each of the first 64
      required fields occurs in it and the last fixed-count array is full. */
  lemma {:induction false} DecodesExactly(fields: seq<Field>, m: seq<Slot>, s: seq<byte>)
    requires DistinctTags(fields) && Lex(fields, s).Some?
    requires ApplyAll(fields, State(m, None, {}), Lex(fields, s).value).Some?
    ensures var rs := Lex(fields, s).value;
            var slots := ApplyAll(fields, State(m, None, {}), rs).value.slots;
            DecodeInto(fields, m, s) ==
            if LastFilled(fields, rs, slots) && forall i: nat :: Checked(fields, i) ==> Occurs(rs, fields[i].tag) then Some(slots)
            else None
  {
    var rs := Lex(fields, s).value;
    var st := ApplyAll(fields, State(m, None, {}), rs).value;
    RunIsLast(fields, State(m, None, {}), rs);
    hide ApplyAll, Lex, LastFixedCount, RequiredIndex, RequiredBefore;
    forall i: nat | i < |fields|
      ensures RequiredIndex(fields, i) == RequiredBefore(fields, i)
      ensures i in st.seen <==> Occurs(rs, fields[i].tag)
    {
      IndexCounts(fields, i);
      MetOccurs(fields, State(m, None, {}), rs, i);
    }
    hide Occurs;
  }

  /** So a decoded message had each of them. */
  lemma {:induction false} RequiredOccur(fields: seq<Field>, m: seq<Slot>, s: seq<byte>, i: nat)
    requires DistinctTags(fields) && DecodeInto(fields, m, s).Some? && Checked(fields, i)
    ensures Lex(fields, s).Some? && Occurs(Lex(fields, s).value, fields[i].tag)
  {
    hide ApplyAll, Lex, LastFixedCount, RequiredBefore, Occurs;
    DecodesExactly(fields, m, s);
  }
}
