/** ChangeCipherSpec records and cipher changes over whole runs of the receiver, in the numbers of the wire. */
module ChangeCipher {
  import opened Bits
  import opened HandshakeReceiver

  /** A ChangeCipherSpec record: type 20, one byte 1, not encrypted. */
  predicate CcsRecord(kind: byte, s: seq<byte>, nullCipher: bool) { kind == 20 && s == [1] && nullCipher }

  predicate BringsCcs(e: Event) { e.Record? && CcsRecord(e.kind, e.s, e.nullCipher) }

  /** A ChangeCipherSpec has come, and none was taken since. */
  ghost predicate Pending(es: seq<Event>) {
    exists i :: 0 <= i < |es| && BringsCcs(es[i]) && forall j :: i < j < |es| ==> !es[j].Ccs?
  }

  /** Every other record leaves the flag alone; taking a ChangeCipherSpec clears it. */
  lemma {:induction false} FlagStep(rx: Rx, e: Event)
    requires |rx.slots| == FLIGHT && RxOk(rx)
    ensures StepRx(rx, e).hasCcs == (BringsCcs(e) || (rx.hasCcs && !e.Ccs?))
    ensures e.Ccs? ==>
              (OpenChangeCipherSpec(rx, e.kind, e.s, e.nullCipher, e.maxLen).1 == Success <==>
                 rx.hasCcs || CcsRecord(e.kind, e.s, e.nullCipher))
  {
    if e.Record? || e.Ccs? { RecordKeeps(rx, e.s, e.maxLen); }
    hide RxOk, AcceptRecord;
  }

  lemma {:induction false} PendingStep(es: seq<Event>)
    requires es != []
    ensures var n := |es| - 1; Pending(es) <==> BringsCcs(es[n]) || (Pending(es[..n]) && !es[n].Ccs?)
  {
    var n := |es| - 1;
    if Pending(es) {
      var i :| 0 <= i < |es| && BringsCcs(es[i]) && forall j :: i < j < |es| ==> !es[j].Ccs?;
      if i < n { assert es[..n][i] == es[i]; }
    }
    if BringsCcs(es[n]) || (Pending(es[..n]) && !es[n].Ccs?) {
      if !BringsCcs(es[n]) {
        var i :| 0 <= i < n && BringsCcs(es[..n][i]) && forall j :: i < j < n ==> !es[..n][j].Ccs?;
        assert forall j :: i < j < n ==> es[j] == es[..n][j];
        assert BringsCcs(es[i]);
      }
    }
  }

  /** Over every run the flag says exactly whether a ChangeCipherSpec is pending. */
  lemma {:induction false} FlagPending(es: seq<Event>)
    ensures RunRx(es).hasCcs <==> Pending(es)
  {
    if es == [] { return; }
    var n := |es| - 1;
    hide Pending;
    assert Pending([]) == false by { NothingPending(); }
    FlagPending(es[..n]);
    RingInvariant(es[..n]);
    FlagStep(RunRx(es[..n]), es[n]);
    PendingStep(es);
    hide StepRx;
  }

  lemma {:induction false} NothingPending()
    ensures !Pending([])
  {
  }

  /** At any moment of any run, waiting for a ChangeCipherSpec succeeds exactly when one is pending, whatever
      came in between, or when the record at hand is one. */
  lemma {:induction false} TakenExactly(es: seq<Event>, kind: byte, s: seq<byte>, nullCipher: bool, maxLen: nat)
    ensures OpenChangeCipherSpec(RunRx(es), kind, s, nullCipher, maxLen).1 == Success <==>
            Pending(es) || CcsRecord(kind, s, nullCipher)
    ensures !Pending(es + [Ccs(kind, s, nullCipher, maxLen)])
  {
    FlagPending(es);
    RingInvariant(es);
    FlagStep(RunRx(es), Ccs(kind, s, nullCipher, maxLen));
    var all := es + [Ccs(kind, s, nullCipher, maxLen)];
    assert all[..|es|] == es;
    PendingStep(all);
    hide Pending, OpenChangeCipherSpec;
  }

  /** The read keys change exactly when no ChangeCipherSpec is pending and no message is left besides the one
      being processed; the new epoch is the next one, and nothing else changes. */
  lemma {:induction false} RekeyExactly(es: seq<Event>)
    ensures var rx := RunRx(es);
            && (SetReadState(rx).Some? <==>
                  !Pending(es) && forall i :: 0 <= i < 7 && rx.slots[i].Some? ==> rx.hasMessage && i == rx.readSeq % 7)
            && (SetReadState(rx).Some? ==> SetReadState(rx).value == rx.(epoch := (rx.epoch + 1) % 65536))
  {
    FlagPending(es);
    hide Pending, RunRx;
  }

  /** What other records come to: application data is an error before encryption and dropped after, an encrypted
      ChangeCipherSpec or a malformed one is an error, and so is any unknown type.  None changes anything. */
  lemma {:induction false} OtherRecords(rx: Rx, kind: byte, s: seq<byte>, nullCipher: bool, maxLen: nat)
    requires |rx.slots| == FLIGHT && kind != 22 && !CcsRecord(kind, s, nullCipher)
    ensures OpenHandshake(rx, kind, s, nullCipher, maxLen) == (rx, if kind == 23 && !nullCipher then Discard else Failure)
  {
  }

  /** A handshake record is handled whatever the encryption, and succeeds exactly when every fragment in it
      is accepted. */
  lemma {:induction false} HandshakeRecord(rx: Rx, s: seq<byte>, nullCipher: bool, maxLen: nat)
    requires |rx.slots| == FLIGHT
    ensures OpenHandshake(rx, 22, s, nullCipher, maxLen) ==
            (AcceptRecord(rx, s, maxLen).0, if AcceptRecord(rx, s, maxLen).1 then Success else Failure)
  {
  }
}
