/** The receiver as it runs: a ring buffer of messages under assembly, updated in place. */
module HandshakeRing {
  import opened Bits
  import opened HandshakeFormat
  import opened Reassembly
  import Spec = HandshakeReceiver
  import opened HandshakeReceiver

  class Ring {
    var readSeq: nat
    var epoch: nat
    const incoming: array<HmFragment?>
    var hasCcs: bool
    var hasMessage: bool
    /** The receiver's state as a value. */
    ghost var rx: Rx
    ghost var Repr: set<object>

    ghost predicate Owned()
      reads this, Repr
    {
      && this in Repr && incoming in Repr && incoming.Length == FLIGHT
      && (forall i :: 0 <= i < FLIGHT && incoming[i] != null ==>
            incoming[i] in Repr && incoming[i].Repr <= Repr && {this, incoming} !! incoming[i].Repr && incoming[i].Valid())
      && (forall i, j :: 0 <= i < j < FLIGHT && incoming[i] != null && incoming[j] != null ==>
            incoming[i].Repr !! incoming[j].Repr)
    }

    ghost predicate Valid()
      reads this, Repr
    {
      && Owned()
      && rx == Rx(readSeq, epoch, rx.slots, hasCcs, hasMessage) && |rx.slots| == FLIGHT
      && (forall i :: 0 <= i < FLIGHT ==> rx.slots[i] == SlotModel(i))
      && RxOk(rx)
    }

    ghost function SlotModel(i: nat): Option<Assembly>
      requires Owned() && i < FLIGHT
      reads this, Repr
    {
      if incoming[i] == null then None else Some(incoming[i].Model())
    }

    constructor ()
      ensures Valid() && fresh(Repr) && rx == Spec.Start()
    {
      readSeq, epoch, hasCcs, hasMessage := 0, 0, false, false;
      incoming := new HmFragment?[FLIGHT](_ => null);
      rx := Spec.Start();
      new;
      Repr := {this, incoming};
      RingInvariant([]);
    }

    method IsCurrentComplete() returns (complete: bool)
      requires Valid()
      ensures complete == CurrentComplete(rx)
    {
      var idx := readSeq % FLIGHT;
      var frag := incoming[idx];
      assert rx.slots[idx] == SlotModel(idx);
      if frag != null { frag.CompleteByMask(); }
      complete := frag != null && frag.reassembly == null;
    }

    /** The message a fragment belongs to, begun if there is none yet; null when the ring has no place
        for it or it contradicts earlier fragments. */
    method GetIncoming(f: Fragment) returns (frag: HmFragment?)
      requires Valid() && f.seq_ < TWO_16
      modifies this`Repr, this`rx, incoming
      ensures Valid() && fresh(Repr - old(Repr)) && old(Repr) <= Repr
      ensures frag != null <==>
                && readSeq <= f.seq_ < readSeq + FLIGHT
                && var a := Begun(old(rx), f); a.kind == f.kind && |a.got| == f.msgLen
      ensures frag == null ==> rx == old(rx)
      ensures frag != null ==>
                && incoming[f.seq_ % FLIGHT] == frag && frag.msgLen == f.msgLen
                && rx == Put(old(rx), f.seq_, Begun(old(rx), f))
    {
      if f.seq_ < readSeq || f.seq_ - readSeq >= FLIGHT { return null; }
      hide RxOk;
      var idx := f.seq_ % FLIGHT;
      frag := incoming[idx];
      assert rx.slots[idx] == SlotModel(idx);
      if frag != null {
        if frag.kind != f.kind || frag.msgLen != f.msgLen { return null; }
        assert rx.slots[idx := rx.slots[idx]] == rx.slots;
        return frag;
      }
      BeginKeeps(rx, f);
      frag := new HmFragment(f.kind, f.seq_, f.msgLen, epoch);
      rx := Put(rx, f.seq_, frag.Model());
      incoming[idx] := frag;
      Repr := Repr + frag.Repr;
    }

    /** Takes the bytes of a fragment that belongs to the message in slot idx. */
    method TakeInto(idx: nat, off: nat, body: seq<byte>)
      requires Owned() && idx < FLIGHT && incoming[idx] != null && off + |body| <= incoming[idx].msgLen
      requires |rx.slots| == FLIGHT && rx == Rx(readSeq, epoch, rx.slots, hasCcs, hasMessage)
      requires forall i :: 0 <= i < FLIGHT ==> rx.slots[i] == SlotModel(i)
      requires rx.slots[idx].Some? && RxOk(Put(rx, idx, Absorb(rx.slots[idx].value, off, body)))
      modifies this`rx, incoming[idx].Repr
      ensures Valid() && rx == Put(old(rx), idx, Absorb(old(rx.slots[idx].value), off, body))
    {
      hide RxOk, Absorb;
      assert rx.slots[idx] == SlotModel(idx);
      var frag := incoming[idx];
      frag.Take(off, body);
      assert Owned();
      rx := Put(rx, idx, frag.Model());
    }

    /** One fragment of a record. */
    method AcceptFragment(f: Fragment, maxLen: nat) returns (ok: bool)
      requires Valid() && f.seq_ < TWO_16
      modifies Repr
      ensures Valid() && fresh(Repr - old(Repr))
      ensures match Spec.AcceptFragment(old(rx), f, maxLen)
              case None => !ok && rx == old(rx)
              case Some(rx') => ok && rx == rx'
    {
      if f.off > f.msgLen || f.off + |f.body| > f.msgLen || f.msgLen > maxLen { return false; }
      if epoch == 1 && f.seq_ != readSeq { return false; }
      if f.seq_ < readSeq || f.seq_ > readSeq + FLIGHT { return true; }
      if Spec.AcceptFragment(rx, f, maxLen).Some? { FragmentKeeps(rx, f, maxLen); }
      hide RxOk, Absorb, HmFragment.Valid;
      var frag := GetIncoming(f);
      if frag == null { return false; }
      ghost var idx := f.seq_ % FLIGHT;
      PutTwice(old(rx), f.seq_, Begun(old(rx), f), Absorb(Begun(old(rx), f), f.off, f.body));
      TakeInto(f.seq_ % FLIGHT, f.off, f.body);
      ok := true;
    }

    /** An opened record: its fragments are taken one after the other. */
    method OpenHandshake(kind: byte, record: seq<byte>, nullCipher: bool, maxLen: nat) returns (r: Outcome)
      requires Valid()
      modifies Repr
      ensures Valid() && fresh(Repr - old(Repr))
      ensures (rx, r) == Spec.OpenHandshake(old(rx), kind, record, nullCipher, maxLen)
    {
      if kind == RT_APPLICATION_DATA {
        return if nullCipher then Failure else Discard;
      }
      if kind == RT_CHANGE_CIPHER_SPEC {
        if !nullCipher { return Failure; }
        if |record| != 1 || record[0] != MT_CCS { return Failure; }
        FlagsKeep(rx, rx.(hasCcs := true));
        hasCcs := true;
        rx := rx.(hasCcs := true);
        return Success;
      }
      if kind != RT_HANDSHAKE { return Failure; }
      var s := record;
      while |s| > 0
        invariant Valid() && fresh(Repr - old(Repr))
        invariant AcceptRecord(old(rx), record, maxLen) == AcceptRecord(rx, s, maxLen)
      {
        hide Valid, Owned;
        var p := ParseFragment(s);
        if p.Bad? { return Failure; }
        var ok := AcceptFragment(p.value, maxLen);
        if !ok { return Failure; }
        s := s[p.len..];
      }
      r := Success;
    }

    method OpenChangeCipherSpec(kind: byte, record: seq<byte>, nullCipher: bool, maxLen: nat) returns (r: Outcome)
      requires Valid()
      modifies Repr
      ensures Valid() && fresh(Repr - old(Repr))
      ensures (rx, r) == Spec.OpenChangeCipherSpec(old(rx), kind, record, nullCipher, maxLen)
    {
      if !hasCcs {
        r := OpenHandshake(kind, record, nullCipher, maxLen);
        if r != Success { return; }
      }
      if hasCcs {
        FlagsKeep(rx, rx.(hasCcs := false));
        hasCcs := false;
        rx := rx.(hasCcs := false);
        return Success;
      }
      r := Discard;
    }

    /** The next message in sequence, if it is complete. */
    method GetMessage() returns (m: Option<Message>)
      requires Valid()
      modifies this
      ensures Valid() && Repr == old(Repr)
      ensures (rx, m) == Spec.GetMessage(old(rx))
    {
      hide RxOk;
      var complete := IsCurrentComplete();
      if !complete { return None; }
      var idx := readSeq % FLIGHT;
      var frag := incoming[idx];
      assert rx.slots[idx] == SlotModel(idx);
      frag.CompleteByMask();
      m := Some(Message(frag.kind, frag.data[HM_HEADER..], frag.data[..]));
      FlagsKeep(rx, rx.(hasMessage := true));
      hasMessage := true;
      rx := rx.(hasMessage := true);
    }

    /** Drops the current message. */
    method NextMessage()
      requires Valid() && hasMessage
      modifies this, incoming
      ensures Valid() && Repr == old(Repr) && rx == Spec.NextMessage(old(rx))
    {
      hide RxOk;
      NextKeeps(rx);
      rx := Spec.NextMessage(rx);
      incoming[readSeq % FLIGHT] := null;
      readSeq := (readSeq + 1) % TWO_16;
      hasMessage := false;
    }

    method HasUnprocessedData() returns (has: bool)
      requires Valid()
      ensures has == HasUnprocessed(rx)
    {
      if hasCcs { return true; }
      var current := readSeq % FLIGHT;
      for i := 0 to FLIGHT
        invariant forall j :: 0 <= j < i && rx.slots[j].Some? ==> hasMessage && j == current
      {
        assert rx.slots[i] == SlotModel(i);
        if hasMessage && i == current { continue; }
        if incoming[i] != null { return true; }
      }
      has := false;
    }

    /** Moves to the next read epoch, unless data of this one is left over. */
    method SetReadState() returns (ok: bool)
      requires Valid()
      modifies this
      ensures Valid() && Repr == old(Repr)
      ensures match Spec.SetReadState(old(rx))
              case None => !ok && rx == old(rx)
              case Some(rx') => ok && rx == rx'
    {
      var left := HasUnprocessedData();
      if left { return false; }
      RekeyKeeps(rx);
      epoch := (epoch + 1) % TWO_16;
      rx := rx.(epoch := epoch);
      ok := true;
    }
  }

  lemma {:induction false} PutTwice(rx: Rx, seq_: nat, a: Assembly, b: Assembly)
    requires |rx.slots| == FLIGHT
    ensures Put(Put(rx, seq_, a), seq_ % FLIGHT, b) == Put(rx, seq_, b)
    ensures Put(rx, seq_, a).slots[seq_ % FLIGHT] == Some(a)
  {
    assert seq_ % FLIGHT % FLIGHT == seq_ % FLIGHT;
  }

  lemma {:induction false} BeginKeeps(rx: Rx, f: Fragment)
    requires RxOk(rx) && rx.readSeq <= f.seq_ < rx.readSeq + FLIGHT && f.seq_ < TWO_16
    requires rx.slots[f.seq_ % FLIGHT].None?
    ensures RxOk(Put(rx, f.seq_, Begun(rx, f)))
  {
    var rx' := Put(rx, f.seq_, Begun(rx, f));
    forall i | 0 <= i < FLIGHT ensures SlotOk(rx', i) { assert SlotOk(rx, i); }
  }
}
