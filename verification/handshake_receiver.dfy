/** Receiving handshake messages: a ring of messages under assembly, delivered in sequence order. */
module HandshakeReceiver {
  import opened Bits
  import opened HandshakeFormat
  import opened Reassembly

  const FLIGHT: nat := 7
  const RT_CHANGE_CIPHER_SPEC: byte := 20
  const RT_HANDSHAKE: byte := 22
  const RT_APPLICATION_DATA: byte := 23
  const MT_CCS: byte := 1

  // ----- the specification

  datatype Rx = Rx(readSeq: nat, epoch: nat, slots: seq<Option<Assembly>>, hasCcs: bool, hasMessage: bool)

  datatype Outcome = Success | Discard | Failure

  datatype Message = Message(kind: byte, body: seq<byte>, raw: seq<byte>)

  function Start(): Rx { Rx(0, 0, [None, None, None, None, None, None, None], false, false) }

  function Current(rx: Rx): Option<Assembly>
    requires |rx.slots| == FLIGHT
  {
    rx.slots[rx.readSeq % FLIGHT]
  }

  predicate CurrentComplete(rx: Rx)
    requires |rx.slots| == FLIGHT
  {
    Current(rx).Some? && Complete(Current(rx).value)
  }

  /** The message a fragment belongs to: the one under assembly, or a new one. */
  function Begun(rx: Rx, f: Fragment): Assembly
    requires |rx.slots| == FLIGHT
  {
    var slot := rx.slots[f.seq_ % FLIGHT];
    if slot.Some? then slot.value else Assembly(f.kind, f.seq_, rx.epoch, Nothing(f.msgLen))
  }

  function Put(rx: Rx, seq_: nat, a: Assembly): (rx': Rx)
    requires |rx.slots| == FLIGHT
    ensures |rx'.slots| == FLIGHT
  {
    rx.(slots := rx.slots[seq_ % FLIGHT := Some(a)])
  }

  /** One fragment; None is a fatal error.  The filter for messages too far ahead lets the sequence
      number readSeq + FLIGHT through, which the ring then has no room for. */
  function AcceptFragment(rx: Rx, f: Fragment, maxLen: nat): (r: Option<Rx>)
    requires |rx.slots| == FLIGHT
    ensures r.Some? ==> |r.value.slots| == FLIGHT
  {
    if f.off + |f.body| > f.msgLen || f.msgLen > maxLen then None
    else if rx.epoch == 1 && f.seq_ != rx.readSeq then None
    else if f.seq_ < rx.readSeq || f.seq_ > rx.readSeq + FLIGHT then Some(rx)
    else if f.seq_ == rx.readSeq + FLIGHT then None
    else
      var a := Begun(rx, f);
      if a.kind != f.kind || |a.got| != f.msgLen then None
      else Some(Put(rx, f.seq_, Absorb(a, f.off, f.body)))
  }

  /** The fragments of a record, in order, up to the first fatal error. */
  function AcceptRecord(rx: Rx, s: seq<byte>, maxLen: nat): (r: (Rx, bool))
    requires |rx.slots| == FLIGHT
    ensures |r.0.slots| == FLIGHT
    decreases |s|
  {
    if s == [] then (rx, true)
    else
      match ParseFragment(s)
      case Bad => (rx, false)
      case Good(f, n) =>
        match AcceptFragment(rx, f, maxLen)
        case None => (rx, false)
        case Some(rx') => AcceptRecord(rx', s[n..], maxLen)
  }

  /** An opened record of some type. */
  function OpenHandshake(rx: Rx, kind: byte, s: seq<byte>, nullCipher: bool, maxLen: nat): (r: (Rx, Outcome))
    requires |rx.slots| == FLIGHT
    ensures |r.0.slots| == FLIGHT
  {
    if kind == RT_APPLICATION_DATA then (rx, if nullCipher then Failure else Discard)
    else if kind == RT_CHANGE_CIPHER_SPEC then
      if nullCipher && s == [MT_CCS] then (rx.(hasCcs := true), Success) else (rx, Failure)
    else if kind != RT_HANDSHAKE then (rx, Failure)
    else
      var (rx', ok) := AcceptRecord(rx, s, maxLen);
      (rx', if ok then Success else Failure)
  }

  function GetMessage(rx: Rx): (Rx, Option<Message>)
    requires |rx.slots| == FLIGHT
  {
    if !CurrentComplete(rx) then (rx, None)
    else
      var a := Current(rx).value;
      (rx.(hasMessage := true), Some(Message(a.kind, Body(a), RawBytes(a))))
  }

  function NextMessage(rx: Rx): Rx
    requires |rx.slots| == FLIGHT
  {
    rx.(slots := rx.slots[rx.readSeq % FLIGHT := None], readSeq := (rx.readSeq + 1) % TWO_16, hasMessage := false)
  }

  /** Handshake data is left over: a ChangeCipherSpec, or a message besides the one being processed. */
  predicate HasUnprocessed(rx: Rx) {
    rx.hasCcs || exists i :: 0 <= i < |rx.slots| && rx.slots[i].Some? && !(rx.hasMessage && i == rx.readSeq % FLIGHT)
  }

  /** Changing the read keys; None when data of the old epoch is left over. */
  function SetReadState(rx: Rx): Option<Rx> {
    if HasUnprocessed(rx) then None else Some(rx.(epoch := (rx.epoch + 1) % TWO_16))
  }

  function OpenChangeCipherSpec(rx: Rx, kind: byte, s: seq<byte>, nullCipher: bool, maxLen: nat): (Rx, Outcome)
    requires |rx.slots| == FLIGHT
  {
    var (rx', r) := if rx.hasCcs then (rx, Success) else OpenHandshake(rx, kind, s, nullCipher, maxLen);
    if !r.Success? then (rx', r)
    else if rx'.hasCcs then (rx'.(hasCcs := false), Success)
    else (rx', Discard)
  }

  // ----- what every step keeps

  /** Slot i of the ring holds nothing, or a message whose number is i modulo the ring size and within
      the window, begun in the current epoch unless it is complete and being processed. */
  predicate SlotOk(rx: Rx, i: nat)
    requires i < |rx.slots|
  {
    rx.slots[i].Some? ==>
      var a := rx.slots[i].value;
      && a.seq_ % FLIGHT == i && rx.readSeq <= a.seq_ < rx.readSeq + FLIGHT && a.seq_ < TWO_16
      && (a.epoch == rx.epoch || (rx.hasMessage && a.seq_ == rx.readSeq))
  }

  predicate RxOk(rx: Rx) {
    && |rx.slots| == FLIGHT && rx.readSeq < TWO_16
    && (forall i :: 0 <= i < FLIGHT ==> SlotOk(rx, i))
    && (rx.hasMessage ==> CurrentComplete(rx))
  }

  /** The current slot holds the next message in sequence. */
  lemma {:induction false} CurrentSeq(rx: Rx)
    requires RxOk(rx) && Current(rx).Some?
    ensures Current(rx).value.seq_ == rx.readSeq
  {
    var i := rx.readSeq % FLIGHT;
    assert SlotOk(rx, i);
    SameResidue(rx.readSeq, Current(rx).value.seq_);
  }

  lemma {:induction false} SameResidue(a: nat, b: nat)
    requires a % FLIGHT == b % FLIGHT && a <= b < a + FLIGHT
    ensures a == b
  {
  }

  datatype Event =
    | Record(kind: byte, s: seq<byte>, nullCipher: bool, maxLen: nat)
    | Ccs(kind: byte, s: seq<byte>, nullCipher: bool, maxLen: nat)
    | Get
    | Next
    | Rekey

  function StepRx(rx: Rx, e: Event): (rx': Rx)
    requires |rx.slots| == FLIGHT
    ensures |rx'.slots| == FLIGHT
  {
    match e
    case Record(kind, s, nullCipher, maxLen) => OpenHandshake(rx, kind, s, nullCipher, maxLen).0
    case Ccs(kind, s, nullCipher, maxLen) => OpenChangeCipherSpec(rx, kind, s, nullCipher, maxLen).0
    case Get => GetMessage(rx).0
    case Next => if rx.hasMessage then NextMessage(rx) else rx
    case Rekey => match SetReadState(rx) case None => rx case Some(rx') => rx'
  }

  /** Only messages begun in the current epoch take bytes. */
  ghost predicate EpochPure(rx: Rx, rx': Rx) {
    && |rx'.slots| == |rx.slots|
    && forall i :: 0 <= i < |rx.slots| && rx'.slots[i] != rx.slots[i] ==>
         && rx'.slots[i].Some? && rx'.slots[i].value.epoch == rx.epoch
         && (rx.slots[i].Some? ==> rx.slots[i].value.epoch == rx.epoch)
  }

  lemma {:induction false} FragmentKeeps(rx: Rx, f: Fragment, maxLen: nat)
    requires RxOk(rx) && f.seq_ < TWO_16 && AcceptFragment(rx, f, maxLen).Some?
    ensures var rx' := AcceptFragment(rx, f, maxLen).value;
            RxOk(rx') && EpochPure(rx, rx') && rx'.epoch == rx.epoch && rx' == rx.(slots := rx'.slots)
  {
    var rx' := AcceptFragment(rx, f, maxLen).value;
    if rx' != rx {
      var i := f.seq_ % FLIGHT;
      forall j | 0 <= j < FLIGHT ensures SlotOk(rx', j) { assert SlotOk(rx, j); }
      if rx.slots[i].Some? {
        assert SlotOk(rx, i);
        SameResidueWindow(rx.readSeq, f.seq_, rx.slots[i].value.seq_);
      }
    }
  }

  lemma {:induction false} SameResidueWindow(lo: nat, a: nat, b: nat)
    requires a % FLIGHT == b % FLIGHT && lo <= a < lo + FLIGHT && lo <= b < lo + FLIGHT
    ensures a == b
  {
  }

  lemma {:induction false} RecordKeeps(rx: Rx, s: seq<byte>, maxLen: nat)
    requires |rx.slots| == FLIGHT && RxOk(rx)
    ensures var rx' := AcceptRecord(rx, s, maxLen).0;
            RxOk(rx') && EpochPure(rx, rx') && rx'.epoch == rx.epoch && rx' == rx.(slots := rx'.slots)
    decreases |s|
  {
    hide RxOk, SlotOk, AcceptFragment, ParseFragment;
    if s == [] { return; }
    var p := ParseFragment(s);
    if p.Good? && AcceptFragment(rx, p.value, maxLen).Some? {
      FragmentKeeps(rx, p.value, maxLen);
      RecordKeeps(AcceptFragment(rx, p.value, maxLen).value, s[p.len..], maxLen);
    }
  }

  lemma {:induction false} NextKeeps(rx: Rx)
    requires RxOk(rx)
    ensures RxOk(NextMessage(rx))
  {
    var rx' := NextMessage(rx);
    forall i | 0 <= i < FLIGHT
      ensures SlotOk(rx', i)
    {
      assert SlotOk(rx, i);
      if i != rx.readSeq % FLIGHT && rx.slots[i].Some? {
        var a := rx.slots[i].value;
        assert a.seq_ != rx.readSeq;
      }
    }
  }

  lemma {:induction false} FlagsKeep(rx: Rx, rx': Rx)
    requires RxOk(rx) && rx' == rx.(hasCcs := rx'.hasCcs, hasMessage := rx'.hasMessage)
    requires (rx.hasMessage ==> rx'.hasMessage) && (rx'.hasMessage ==> CurrentComplete(rx))
    ensures RxOk(rx')
  {
    forall i | 0 <= i < FLIGHT ensures SlotOk(rx', i) { assert SlotOk(rx, i); }
  }

  lemma {:induction false} OpenKeeps(rx: Rx, kind: byte, s: seq<byte>, nullCipher: bool, maxLen: nat)
    requires |rx.slots| == FLIGHT && RxOk(rx)
    ensures var rx' := OpenHandshake(rx, kind, s, nullCipher, maxLen).0; RxOk(rx') && EpochPure(rx, rx')
  {
    RecordKeeps(rx, s, maxLen);
    FlagsKeep(rx, rx.(hasCcs := true));
    hide RxOk, AcceptRecord;
  }

  lemma {:induction false} RekeyKeeps(rx: Rx)
    requires RxOk(rx) && SetReadState(rx).Some?
    ensures RxOk(SetReadState(rx).value)
  {
    var rx' := SetReadState(rx).value;
    forall i | 0 <= i < FLIGHT
      ensures SlotOk(rx', i)
    {
      assert SlotOk(rx, i);
      if rx.slots[i].Some? { CurrentSeq(rx); }
    }
  }

  /** Every step keeps the ring invariant, and mixes no epochs. */
  lemma {:induction false} StepKeeps(rx: Rx, e: Event)
    requires |rx.slots| == FLIGHT && RxOk(rx)
    ensures RxOk(StepRx(rx, e))
    ensures e.Record? || e.Ccs? ==> EpochPure(rx, StepRx(rx, e))
  {
    match e
    case Record(kind, s, nullCipher, maxLen) => OpenKeeps(rx, kind, s, nullCipher, maxLen);
    case Ccs(kind, s, nullCipher, maxLen) =>
      OpenKeeps(rx, kind, s, nullCipher, maxLen);
      var rx' := OpenHandshake(rx, kind, s, nullCipher, maxLen).0;
      FlagsKeep(rx, rx.(hasCcs := false));
      FlagsKeep(rx', rx'.(hasCcs := false));
    case Get => if CurrentComplete(rx) { FlagsKeep(rx, rx.(hasMessage := true)); }
    case Next => NextKeeps(rx);
    case Rekey => if SetReadState(rx).Some? { RekeyKeeps(rx); }
    hide RxOk, OpenHandshake;
  }

  function RunRx(es: seq<Event>): (rx: Rx)
    ensures |rx.slots| == FLIGHT
  {
    if es == [] then Start() else StepRx(RunRx(es[..|es| - 1]), es[|es| - 1])
  }

  /** The ring invariant holds throughout every run. */
  lemma {:induction false} RingInvariant(es: seq<Event>)
    ensures RxOk(RunRx(es))
  {
    if es != [] {
      RingInvariant(es[..|es| - 1]);
      StepKeeps(RunRx(es[..|es| - 1]), es[|es| - 1]);
    }
  }
}
