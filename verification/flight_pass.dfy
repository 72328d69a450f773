/** One pass over a flight: the datagrams attempted, and what the accepted ones carry. */
module FlightPass {
  import opened Bits
  import opened NetworkOrder
  import opened HandshakeFormat
  import opened RecordReader
  import opened RecordWriter
  import opened Flight

  // ----- pieces in records

  /** A piece as it went into a record. */
  datatype SealedPiece = SealedPiece(piece: Piece, kind: byte, plain: seq<byte>,
                                     pair: (nat, nat), cipher: seq<byte>, record: seq<byte>)

  /** The write keys of the current and of the previous epoch. */
  datatype KeyState = KeyState(epoch: nat, keys: SealKeys, lastKeys: SealKeys)

  function PiecesIn(ds: seq<SealedPiece>): (ps: seq<Piece>)
    ensures |ps| == |ds| && forall i :: 0 <= i < |ds| ==> ps[i] == ds[i].piece
  {
    seq(|ds|, i requires 0 <= i < |ds| => ds[i].piece)
  }

  function RecordsOf(ds: seq<SealedPiece>): seq<byte> {
    if ds == [] then [] else RecordsOf(ds[..|ds| - 1]) + ds[|ds| - 1].record
  }

  /** The plaintext of the record is the piece of the queued message it stands for. */
  ghost predicate Carries(out: seq<Outgoing>, d: SealedPiece) {
    && d.piece.msg < |out|
    && var m := out[d.piece.msg];
       if m.isCcs then d.kind == KIND_CCS && d.plain == CCS_BODY
       else
         && Formed(m) && d.kind == KIND_HANDSHAKE && d.piece.from <= d.piece.to <= |BodyOf(m)|
         && var f := ParseFragment(m.data).value;
            d.plain == FragmentBytes(Fragment(f.kind, f.msgLen, f.seq_, d.piece.from, f.body[d.piece.from..d.piece.to]))
  }

  /** The record protects the plaintext under the epoch the message was queued in. */
  ghost predicate Protects(out: seq<Outgoing>, ks: KeyState, d: SealedPiece) {
    && d.piece.msg < |out| && d.pair.0 == out[d.piece.msg].epoch
    && (d.pair.0 == ks.epoch || d.pair.0 + 1 == ks.epoch) && d.pair.1 < TWO_48 && |d.cipher| < 65536
    && d.record == RecordBytes(d.kind, ks.keys.version, d.pair, d.cipher)
    && (if d.pair.0 == ks.epoch then ks.keys else ks.lastKeys).seal(
         d.kind, ks.keys.version, BigEndian(d.pair.0, 2) + BigEndian(d.pair.1, 6), d.plain) == Some(d.cipher)
  }

  ghost predicate Genuine(out: seq<Outgoing>, ks: KeyState, ds: seq<SealedPiece>) {
    forall i :: 0 <= i < |ds| ==> Carries(out, ds[i]) && Protects(out, ks, ds[i])
  }

  // ----- attempts

  datatype Result = Accepted | Refused | SealFailed

  /** A datagram the sender tried to get out: sealed completely and accepted or refused by the
      transport, or given up when a sealing failed, with the pieces sealed until then. */
  datatype Attempt = Attempt(ds: seq<SealedPiece>, result: Result, ks: KeyState, mtu: nat)

  ghost predicate AttemptOk(out: seq<Outgoing>, c: Cursor, a: Attempt) {
    && Walk(out, c, PiecesIn(a.ds)).Some? && Genuine(out, a.ks, a.ds)
    && (!a.result.SealFailed? ==> a.ds != [] && |RecordsOf(a.ds)| <= a.mtu)
  }

  /** Where an attempt leaves the cursor: a refused datagram will be made again, one that could not be
      sealed leaves the cursor where the sealing got to. */
  ghost function AfterAttempt(out: seq<Outgoing>, c: Cursor, a: Attempt): Option<Cursor> {
    if !AttemptOk(out, c, a) then None
    else if a.result.Refused? then Some(c)
    else Walk(out, c, PiecesIn(a.ds))
  }

  ghost function AfterAttempts(out: seq<Outgoing>, attempts: seq<Attempt>): Option<Cursor> {
    if attempts == [] then Some(Cursor(0, 0))
    else
      match AfterAttempts(out, attempts[..|attempts| - 1])
      case None => None
      case Some(c) => AfterAttempt(out, c, attempts[|attempts| - 1])
  }

  /** The pieces of the attempts with one of the results. */
  function PiecesWith(attempts: seq<Attempt>, rs: set<Result>): seq<SealedPiece> {
    if attempts == [] then []
    else
      var last := attempts[|attempts| - 1];
      PiecesWith(attempts[..|attempts| - 1], rs) + if last.result in rs then last.ds else []
  }

  /** The datagrams the transport accepted. */
  function Datagrams(attempts: seq<Attempt>): seq<seq<SealedPiece>> {
    if attempts == [] then []
    else
      var last := attempts[|attempts| - 1];
      Datagrams(attempts[..|attempts| - 1]) + if last.result.Accepted? then [last.ds] else []
  }

  function Flatten(packets: seq<seq<SealedPiece>>): seq<SealedPiece> {
    if packets == [] then [] else Flatten(packets[..|packets| - 1]) + packets[|packets| - 1]
  }

  /** A sealing failed when its datagram already held some pieces. */
  predicate Dropping(a: Attempt) { a.result.SealFailed? && a.ds != [] }

  predicate NothingDropped(attempts: seq<Attempt>) {
    forall k :: 0 <= k < |attempts| ==> !Dropping(attempts[k])
  }

  lemma {:induction false} DatagramPieces(attempts: seq<Attempt>)
    ensures Flatten(Datagrams(attempts)) == PiecesWith(attempts, {Accepted})
  {
    if attempts != [] {
      var before, last := attempts[..|attempts| - 1], attempts[|attempts| - 1];
      DatagramPieces(before);
      if last.result.Accepted? {
        var all := Datagrams(attempts);
        assert all[..|all| - 1] == Datagrams(before);
      } else {
        assert Datagrams(before) + [] == Datagrams(before);
        assert PiecesWith(before, {Accepted}) + [] == PiecesWith(before, {Accepted});
      }
    }
  }

  lemma {:induction false} DatagramsMore(attempts: seq<Attempt>, a: Attempt)
    ensures Datagrams(attempts + [a]) == Datagrams(attempts) + if a.result.Accepted? then [a.ds] else []
  {
    assert (attempts + [a])[..|attempts|] == attempts;
  }

  /** Every datagram comes from an attempt that fitted it to the MTU. */
  lemma {:induction false} DatagramsFit(out: seq<Outgoing>, attempts: seq<Attempt>, i: nat) returns (k: nat)
    requires AfterAttempts(out, attempts).Some? && i < |Datagrams(attempts)|
    ensures k < |attempts| && attempts[k].result.Accepted? && attempts[k].ds == Datagrams(attempts)[i]
    ensures |RecordsOf(Datagrams(attempts)[i])| <= attempts[k].mtu
  {
    hide AfterAttempt;
    var n := |attempts| - 1;
    if i < |Datagrams(attempts[..n])| {
      k := DatagramsFit(out, attempts[..n], i);
    } else {
      k := n;
      FitsMtu(out, AfterAttempts(out, attempts[..n]).value, attempts[n]);
    }
  }

  lemma {:induction false} FitsMtu(out: seq<Outgoing>, c: Cursor, a: Attempt)
    requires AfterAttempt(out, c, a).Some? && a.result.Accepted?
    ensures |RecordsOf(a.ds)| <= a.mtu
  {
  }

  lemma {:induction false} PiecesAppend(ds: seq<SealedPiece>, es: seq<SealedPiece>)
    ensures PiecesIn(ds + es) == PiecesIn(ds) + PiecesIn(es)
  {
  }

  // ----- what a pass carries

  /** The cursor is where the pieces that were not refused have brought it. */
  lemma {:induction false} PassWalks(out: seq<Outgoing>, attempts: seq<Attempt>)
    requires AfterAttempts(out, attempts).Some?
    ensures Walk(out, Cursor(0, 0), PiecesIn(PiecesWith(attempts, {Accepted, SealFailed}))) == AfterAttempts(out, attempts)
  {
    hide Walk, Genuine, RecordsOf;
    if attempts == [] {
      WalkNothing(out, Cursor(0, 0));
      assert PiecesIn([]) == [];
      return;
    }
    var before, last := attempts[..|attempts| - 1], attempts[|attempts| - 1];
    PassWalks(out, before);
    var ds := PiecesWith(before, {Accepted, SealFailed});
    PiecesAppend(ds, last.ds);
    WalkAppend(out, Cursor(0, 0), PiecesIn(ds), PiecesIn(last.ds));
    assert ds + [] == ds;
  }

  /** Pieces carried are those accepted and those dropped. */
  lemma {:induction false} PiecesSplit(attempts: seq<Attempt>, msg: nat, k: nat)
    ensures var all, got, lost := PiecesIn(PiecesWith(attempts, {Accepted, SealFailed})),
                                  PiecesIn(PiecesWith(attempts, {Accepted})), PiecesIn(PiecesWith(attempts, {SealFailed}));
            && Carriers(all, msg, k) == Carriers(got, msg, k) + Carriers(lost, msg, k)
            && PiecesOf(all, msg) == PiecesOf(got, msg) + PiecesOf(lost, msg)
  {
    hide PiecesIn, Carriers, PiecesOf;
    if attempts == [] {
      CountNothing(msg, k);
      return;
    }
    var before, last := attempts[..|attempts| - 1], attempts[|attempts| - 1];
    PiecesSplit(before, msg, k);
    CountMore(PiecesWith(before, {Accepted, SealFailed}), last.ds, msg, k);
    CountMore(PiecesWith(before, {Accepted}), last.ds, msg, k);
    CountMore(PiecesWith(before, {SealFailed}), last.ds, msg, k);
    CountMore(PiecesWith(before, {Accepted, SealFailed}), [], msg, k);
    CountMore(PiecesWith(before, {Accepted}), [], msg, k);
    CountMore(PiecesWith(before, {SealFailed}), [], msg, k);
    CountNothing(msg, k);
  }

  lemma {:induction false} CountNothing(msg: nat, k: nat)
    ensures Carriers(PiecesIn([]), msg, k) == 0 && PiecesOf(PiecesIn([]), msg) == 0
  {
  }

  lemma {:induction false} CountMore(ds: seq<SealedPiece>, es: seq<SealedPiece>, msg: nat, k: nat)
    ensures Carriers(PiecesIn(ds + es), msg, k) == Carriers(PiecesIn(ds), msg, k) + Carriers(PiecesIn(es), msg, k)
    ensures PiecesOf(PiecesIn(ds + es), msg) == PiecesOf(PiecesIn(ds), msg) + PiecesOf(PiecesIn(es), msg)
    decreases |es|
  {
    if es == [] {
      assert ds + es == ds;
      CountNothing(msg, k);
      return;
    }
    hide Carriers, PiecesOf, PiecesIn;
    var n := |es| - 1;
    CountMore(ds, es[..n], msg, k);
    CountOne(ds + es[..n], es[n], msg, k);
    CountOne(es[..n], es[n], msg, k);
    assert ds + es[..n] + [es[n]] == ds + es && es[..n] + [es[n]] == es;
  }

  lemma {:induction false} CountOne(ds: seq<SealedPiece>, d: SealedPiece, msg: nat, k: nat)
    ensures Carriers(PiecesIn(ds + [d]), msg, k) ==
            Carriers(PiecesIn(ds), msg, k) + if d.piece.msg == msg && d.piece.from <= k < d.piece.to then 1 else 0
    ensures PiecesOf(PiecesIn(ds + [d]), msg) == PiecesOf(PiecesIn(ds), msg) + if d.piece.msg == msg then 1 else 0
  {
    var all := PiecesIn(ds + [d]);
    assert all[..|ds|] == PiecesIn(ds);
  }

  lemma {:induction false} CountAtLeast(ps: seq<Piece>, i: nat, k: nat)
    requires i < |ps|
    ensures PiecesOf(ps, ps[i].msg) >= 1
    ensures ps[i].from <= k < ps[i].to ==> Carriers(ps, ps[i].msg, k) >= 1
  {
    if i < |ps| - 1 { CountAtLeast(ps[..|ps| - 1], i, k); }
  }

  lemma {:induction false} NoneLost(attempts: seq<Attempt>)
    ensures NothingDropped(attempts) <==> PiecesWith(attempts, {SealFailed}) == []
    ensures NothingDropped(attempts) ==>
              PiecesWith(attempts, {Accepted, SealFailed}) == PiecesWith(attempts, {Accepted})
  {
    if attempts != [] {
      var before, last := attempts[..|attempts| - 1], attempts[|attempts| - 1];
      NoneLost(before);
      assert NothingDropped(attempts) <==> NothingDropped(before) && !Dropping(last);
    }
  }

  /** Every message is carried whole: each of its bytes once, in order, and an empty message or a
      ChangeCipherSpec by one piece. */
  ghost predicate Tiles(out: seq<Outgoing>, ps: seq<Piece>) {
    forall msg: nat :: msg < |out| ==> MessageTiled(out, ps, msg)
  }

  /** For every finished pass, the accepted datagrams carry the flight whole exactly when no sealing
      failed in the middle of a datagram. */
  lemma {:induction false} TilesExactly(out: seq<Outgoing>, attempts: seq<Attempt>)
    requires AfterAttempts(out, attempts) == Some(Cursor(|out|, 0))
    ensures Tiles(out, PiecesIn(PiecesWith(attempts, {Accepted}))) <==> NothingDropped(attempts)
  {
    var all := PiecesIn(PiecesWith(attempts, {Accepted, SealFailed}));
    PassWalks(out, attempts);
    NoneLost(attempts);
    hide MessageTiled, Walk, PiecesWith, AfterAttempts;
    if NothingDropped(attempts) {
      forall msg: nat | msg < |out| ensures MessageTiled(out, all, msg) { FlightTiled(out, all, msg); }
    } else {
      LostNotTiled(out, attempts);
    }
  }

  lemma {:induction false} LostNotTiled(out: seq<Outgoing>, attempts: seq<Attempt>)
    requires var all := PiecesIn(PiecesWith(attempts, {Accepted, SealFailed}));
             Walk(out, Cursor(0, 0), all) == Some(Cursor(|out|, 0))
    requires PiecesWith(attempts, {SealFailed}) != []
    ensures !Tiles(out, PiecesIn(PiecesWith(attempts, {Accepted})))
  {
    var all := PiecesIn(PiecesWith(attempts, {Accepted, SealFailed}));
    var lost := PiecesIn(PiecesWith(attempts, {SealFailed}));
    var got := PiecesIn(PiecesWith(attempts, {Accepted}));
    var i := LostAmongAll(attempts);
    var p := lost[0];
    PieceInRange(out, all, i);
    PiecesSplit(attempts, p.msg, p.from);
    CountAtLeast(lost, 0, p.from);
    FlightTiled(out, all, p.msg);
    hide Walk, Carriers, PiecesOf, PiecesWith, PiecesIn;
    assert !MessageTiled(out, got, p.msg);
  }

  /** The first piece that was dropped is one the cursor passed. */
  lemma {:induction false} LostAmongAll(attempts: seq<Attempt>) returns (i: nat)
    requires PiecesWith(attempts, {SealFailed}) != []
    ensures var all := PiecesWith(attempts, {Accepted, SealFailed});
            i < |all| && all[i] == PiecesWith(attempts, {SealFailed})[0]
  {
    var before, last := attempts[..|attempts| - 1], attempts[|attempts| - 1];
    if PiecesWith(before, {SealFailed}) != [] {
      i := LostAmongAll(before);
    } else {
      i := |PiecesWith(before, {Accepted, SealFailed})|;
    }
  }

  // ----- a pass that loses a message

  /** Any finished pass, cut in two at any piece: if the first part was sealed and then a sealing failed,
      and the rest got out, the flight is sent to its end and what was accepted does not carry it. */
  lemma {:induction false} FailedSealingDrops(out: seq<Outgoing>, ds: seq<SealedPiece>, ks: KeyState, n: nat, mtu: nat)
    requires Walk(out, Cursor(0, 0), PiecesIn(ds)) == Some(Cursor(|out|, 0)) && Genuine(out, ks, ds)
    requires 0 < n < |ds| && |RecordsOf(ds[n..])| <= mtu
    ensures var attempts := [Attempt(ds[..n], SealFailed, ks, mtu), Attempt(ds[n..], Accepted, ks, mtu)];
            && AfterAttempts(out, attempts) == Some(Cursor(|out|, 0))
            && !Tiles(out, PiecesIn(PiecesWith(attempts, {Accepted})))
  {
    hide Walk, Carries, Protects, RecordsOf;
    var a, b := Attempt(ds[..n], SealFailed, ks, mtu), Attempt(ds[n..], Accepted, ks, mtu);
    assert ds == ds[..n] + ds[n..];
    PiecesAppend(ds[..n], ds[n..]);
    WalkAppend(out, Cursor(0, 0), PiecesIn(ds[..n]), PiecesIn(ds[n..]));
    assert [a][..0] == [] && [a, b][..1] == [a];
    assert AfterAttempts(out, []) == Some(Cursor(0, 0));
    assert AfterAttempts(out, [a]) == Walk(out, Cursor(0, 0), PiecesIn(ds[..n]));
    TilesExactly(out, [a, b]);
    assert Dropping([a, b][0]);
  }

  /** Records without protection, as in the first epoch. */
  const PLAIN_KEYS := SealKeys(0xfeff, 0, 0, (kind, version, seq_, in_) => Some(in_))

  function PlainCcs(msg: nat, number: nat): SealedPiece {
    SealedPiece(Piece(msg, 0, 0), KIND_CCS, CCS_BODY, (0, number), CCS_BODY,
                RecordBytes(KIND_CCS, 0xfeff, (0, number), CCS_BODY))
  }

  /** Such passes exist: two messages, of which only the second gets out. */
  lemma {:induction false} DroppedPiece(mtu: nat)
    requires mtu >= |PlainCcs(1, 1).record|
    ensures var m := Outgoing([], 0, true);
            var ks := KeyState(0, PLAIN_KEYS, PLAIN_KEYS);
            var attempts := [Attempt([PlainCcs(0, 0)], SealFailed, ks, mtu), Attempt([PlainCcs(1, 1)], Accepted, ks, mtu)];
            && Genuine([m, m], ks, [PlainCcs(0, 0), PlainCcs(1, 1)])
            && AfterAttempts([m, m], attempts) == Some(Cursor(2, 0))
            && !Tiles([m, m], PiecesIn(PiecesWith(attempts, {Accepted})))
  {
    var m := Outgoing([], 0, true);
    var ks := KeyState(0, PLAIN_KEYS, PLAIN_KEYS);
    var ds := [PlainCcs(0, 0), PlainCcs(1, 1)];
    var ps := PiecesIn(ds);
    assert ps[..1] == [Piece(0, 0, 0)] && ps[..1][..0] == [];
    assert Walk([m, m], Cursor(0, 0), ps[..1]) == Some(Cursor(1, 0));
    assert Genuine([m, m], ks, ds);
    assert ds[..1] == [PlainCcs(0, 0)] && ds[1..] == [PlainCcs(1, 1)];
    assert [PlainCcs(1, 1)][..0] == [] && [] + PlainCcs(1, 1).record == PlainCcs(1, 1).record;
    assert RecordsOf(ds[1..]) == PlainCcs(1, 1).record;
    FailedSealingDrops([m, m], ds, ks, 1, mtu);
  }

  // ----- more messages, more attempts

  lemma {:induction false} WalkLonger(out: seq<Outgoing>, m: Outgoing, c: Cursor, ps: seq<Piece>)
    requires Walk(out, c, ps).Some?
    ensures Walk(out + [m], c, ps) == Walk(out, c, ps)
  {
    hide BodyOf;
    if ps != [] {
      WalkLonger(out, m, c, ps[..|ps| - 1]);
    }
  }

  lemma {:induction false} GenuineLonger(out: seq<Outgoing>, m: Outgoing, ks: KeyState, ds: seq<SealedPiece>)
    requires Genuine(out, ks, ds)
    ensures Genuine(out + [m], ks, ds)
  {
    forall i | 0 <= i < |ds|
      ensures Carries(out + [m], ds[i]) && Protects(out + [m], ks, ds[i])
    {
      assert Carries(out, ds[i]) && Protects(out, ks, ds[i]);
    }
  }

  /** Queueing another message does not disturb the pass. */
  lemma {:induction false} PassLonger(out: seq<Outgoing>, m: Outgoing, attempts: seq<Attempt>)
    requires AfterAttempts(out, attempts).Some?
    ensures AfterAttempts(out + [m], attempts) == AfterAttempts(out, attempts)
  {
    hide Walk, Genuine, RecordsOf;
    if attempts != [] {
      var before, last := attempts[..|attempts| - 1], attempts[|attempts| - 1];
      PassLonger(out, m, before);
      WalkLonger(out, m, AfterAttempts(out, before).value, PiecesIn(last.ds));
      GenuineLonger(out, m, last.ks, last.ds);
    }
  }

  lemma {:induction false} NoPieces(out: seq<Outgoing>, c: Cursor)
    ensures Walk(out, c, PiecesIn([])) == Some(c) && RecordsOf([]) == []
  {
  }

  lemma {:induction false} OneMore(out: seq<Outgoing>, c: Cursor, ds: seq<SealedPiece>, d: SealedPiece)
    ensures Walk(out, c, PiecesIn(ds + [d])) ==
            (if Walk(out, c, PiecesIn(ds)).None? then None
             else Advance(out, Walk(out, c, PiecesIn(ds)).value, d.piece))
    ensures RecordsOf(ds + [d]) == RecordsOf(ds) + d.record
  {
    assert (ds + [d])[..|ds|] == ds;
    assert PiecesIn(ds + [d])[..|ds|] == PiecesIn(ds);
  }

  /** Every piece moves the cursor on. */
  lemma {:induction false} WalkMoves(out: seq<Outgoing>, c: Cursor, ps: seq<Piece>)
    requires Walk(out, c, ps).Some?
    ensures var c' := Walk(out, c, ps).value;
            if ps == [] then c' == c
            else c'.written > c.written || (c'.written == c.written && c'.offset > c.offset)
  {
    hide BodyOf;
    if ps != [] { WalkMoves(out, c, ps[..|ps| - 1]); }
  }
}
