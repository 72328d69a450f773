/** Sending a flight: messages are cut into records and packed into datagrams, with a cursor that
    survives blocked writes. */
module Flight {
  import opened Bits
  import opened HandshakeFormat

  const MAX_FLIGHT: nat := 7
  const MIN_MTU: nat := 228
  const DEFAULT_MTU: nat := 1472
  const KIND_CCS: byte := 20
  const KIND_HANDSHAKE: byte := 22
  const CCS_BODY: seq<byte> := [1]

  /** A queued message; a ChangeCipherSpec has no data. */
  datatype Outgoing = Outgoing(data: seq<byte>, epoch: nat, isCcs: bool)

  /** The data is one unfragmented handshake message. */
  predicate Formed(m: Outgoing) {
    var p := ParseFragment(m.data);
    p.Good? && p.value.off == 0 && p.value.msgLen == |p.value.body| && p.len == |m.data|
  }

  function BodyOf(m: Outgoing): (b: seq<byte>)
    ensures !m.isCcs && Formed(m) ==> |b| == |m.data| - HM_HEADER
  {
    if m.isCcs || !Formed(m) then [] else ParseFragment(m.data).value.body
  }

  // ----- pieces and the cursor

  /** Bytes from to to of queued message msg; the whole of it when it is empty or a ChangeCipherSpec. */
  datatype Piece = Piece(msg: nat, from: nat, to: nat)

  datatype Cursor = Cursor(written: nat, offset: nat)

  predicate CursorOk(out: seq<Outgoing>, c: Cursor) {
    c.written <= |out| && c.offset <= if c.written < |out| then |BodyOf(out[c.written])| else 0
  }

  /** Where the cursor goes after a piece; None when the piece does not start at the cursor, or is empty
      without need. */
  function Advance(out: seq<Outgoing>, c: Cursor, p: Piece): Option<Cursor> {
    if c.written >= |out| || p.msg != c.written || p.from != c.offset then None
    else
      var len := |BodyOf(out[p.msg])|;
      if p.to == len then Some(Cursor(c.written + 1, 0))
      else if p.from < p.to < len then Some(Cursor(c.written, p.to))
      else None
  }

  /** Where a series of pieces takes the cursor. */
  function Walk(out: seq<Outgoing>, c: Cursor, ps: seq<Piece>): Option<Cursor> {
    if ps == [] then Some(c)
    else
      match Walk(out, c, ps[..|ps| - 1])
      case None => None
      case Some(c') => Advance(out, c', ps[|ps| - 1])
  }

  lemma {:induction false} WalkAppend(out: seq<Outgoing>, c: Cursor, ps: seq<Piece>, qs: seq<Piece>)
    ensures Walk(out, c, ps + qs) ==
            if Walk(out, c, ps).None? then None else Walk(out, Walk(out, c, ps).value, qs)
    decreases |qs|
  {
    if qs == [] {
      assert ps + qs == ps;
    } else {
      var n := |qs| - 1;
      WalkAppend(out, c, ps, qs[..n]);
      assert (ps + qs)[..|ps + qs| - 1] == ps + qs[..n];
    }
  }

  /** Messages before the cursor, and the bytes before it in its own. */
  predicate Before(c: Cursor, msg: nat, k: nat) { msg < c.written || (msg == c.written && k < c.offset) }

  /** How many pieces carry byte k of message msg. */
  function Carriers(ps: seq<Piece>, msg: nat, k: nat): nat {
    if ps == [] then 0
    else
      var p := ps[|ps| - 1];
      Carriers(ps[..|ps| - 1], msg, k) + if p.msg == msg && p.from <= k < p.to then 1 else 0
  }

  /** How many pieces there are of message msg. */
  function PiecesOf(ps: seq<Piece>, msg: nat): nat {
    if ps == [] then 0 else PiecesOf(ps[..|ps| - 1], msg) + if ps[|ps| - 1].msg == msg then 1 else 0
  }

  /** The bodies of the pieces of one message, one after the other. */
  function Carried(out: seq<Outgoing>, ps: seq<Piece>, msg: nat): seq<byte>
    requires msg < |out|
  {
    if ps == [] then []
    else
      var p, body := ps[|ps| - 1], BodyOf(out[msg]);
      Carried(out, ps[..|ps| - 1], msg) + if p.msg == msg && p.from <= p.to <= |body| then body[p.from..p.to] else []
  }

  /** The pieces carry every byte of the message before the cursor exactly once and no byte after it,
      and in order they make up what is before the cursor. */
  ghost predicate Tiled(out: seq<Outgoing>, ps: seq<Piece>, c: Cursor, msg: nat)
    requires msg < |out|
  {
    var body := BodyOf(out[msg]);
    && (forall k: nat :: k < |body| ==> Carriers(ps, msg, k) == if Before(c, msg, k) then 1 else 0)
    && (PiecesOf(ps, msg) >= 1 <==> msg < c.written || (msg == c.written && c.offset > 0))
    && (body == [] ==> PiecesOf(ps, msg) <= 1)
    && (msg == c.written ==> c.offset <= |body|)
    && Carried(out, ps, msg) ==
       if msg < c.written then body else if msg == c.written then body[..c.offset] else []
  }

  lemma {:induction false} TileStep(out: seq<Outgoing>, ps: seq<Piece>, p: Piece, c: Cursor, c': Cursor, msg: nat)
    requires msg < |out| && Tiled(out, ps, c, msg) && Advance(out, c, p) == Some(c')
    ensures Tiled(out, ps + [p], c', msg)
  {
    hide BodyOf;
    var body := BodyOf(out[msg]);
    assert (ps + [p])[..|ps|] == ps;
    if msg == p.msg {
      assert c.offset <= p.to <= |body|;
      assert body[..p.from] + body[p.from..p.to] == body[..p.to];
      assert body[..|body|] == body;
      OnePiece(ps, c, p, msg, body);
    } else {
      OtherPiece(out, ps, p, msg);
      assert body[..0] == [];
      assert forall k: nat :: Before(c', msg, k) == Before(c, msg, k);
      hide Carriers, PiecesOf, Carried;
    }
  }

  lemma {:induction false} OtherPiece(out: seq<Outgoing>, ps: seq<Piece>, p: Piece, msg: nat)
    requires msg < |out| && p.msg != msg
    ensures forall k: nat :: Carriers(ps + [p], msg, k) == Carriers(ps, msg, k)
    ensures PiecesOf(ps + [p], msg) == PiecesOf(ps, msg) && Carried(out, ps + [p], msg) == Carried(out, ps, msg)
  {
    assert (ps + [p])[..|ps|] == ps;
    assert Carried(out, ps, msg) + [] == Carried(out, ps, msg);
  }

  lemma {:induction false} OnePiece(ps: seq<Piece>, c: Cursor, p: Piece, msg: nat, body: seq<byte>)
    requires p.msg == msg == c.written && p.from == c.offset <= p.to <= |body|
    requires forall k: nat :: k < |body| ==> Carriers(ps, msg, k) == if Before(c, msg, k) then 1 else 0
    ensures forall k: nat :: k < |body| ==> Carriers(ps + [p], msg, k) == if k < p.to then 1 else 0
  {
    assert (ps + [p])[..|ps|] == ps;
  }

  lemma {:induction false} NothingTiled(out: seq<Outgoing>, msg: nat)
    requires msg < |out|
    ensures Tiled(out, [], Cursor(0, 0), msg)
  {
    hide BodyOf;
  }

  /** A pass tiles every message, as far as the cursor has come. */
  lemma {:induction false} PassTiles(out: seq<Outgoing>, ps: seq<Piece>, msg: nat)
    requires Walk(out, Cursor(0, 0), ps).Some? && msg < |out|
    ensures Tiled(out, ps, Walk(out, Cursor(0, 0), ps).value, msg)
  {
    hide Advance, Tiled;
    if ps == [] {
      NothingTiled(out, msg);
      return;
    }
    var before, p := ps[..|ps| - 1], ps[|ps| - 1];
    PassTiles(out, before, msg);
    TileStep(out, before, p, Walk(out, Cursor(0, 0), before).value, Walk(out, Cursor(0, 0), ps).value, msg);
    assert before + [p] == ps;
  }

  /** The message is carried whole: each of its bytes by exactly one piece, in order, and an empty
      message or a ChangeCipherSpec by exactly one piece. */
  ghost predicate MessageTiled(out: seq<Outgoing>, ps: seq<Piece>, msg: nat)
    requires msg < |out|
  {
    var body := BodyOf(out[msg]);
    && (forall k: nat :: k < |body| ==> Carriers(ps, msg, k) == 1)
    && PiecesOf(ps, msg) >= 1 && (body == [] ==> PiecesOf(ps, msg) == 1)
    && Carried(out, ps, msg) == body
  }

  /** A finished pass carries every message whole. */
  lemma {:induction false} FlightTiled(out: seq<Outgoing>, ps: seq<Piece>, msg: nat)
    requires Walk(out, Cursor(0, 0), ps) == Some(Cursor(|out|, 0)) && msg < |out|
    ensures MessageTiled(out, ps, msg)
  {
    PassTiles(out, ps, msg);
  }

  lemma {:induction false} WalkNothing(out: seq<Outgoing>, c: Cursor)
    ensures Walk(out, c, []) == Some(c)
  {
  }

  /** The cursor stands before the end of its message, and each piece of a pass is a nonempty part of its
      message, unless the message is empty. */
  lemma {:induction false} PieceInRange(out: seq<Outgoing>, ps: seq<Piece>, i: nat)
    requires Walk(out, Cursor(0, 0), ps).Some?
    ensures var c := Walk(out, Cursor(0, 0), ps).value;
            c.offset > 0 ==> c.written < |out| && c.offset < |BodyOf(out[c.written])|
    ensures i < |ps| ==>
              && ps[i].msg < |out|
              && var len := |BodyOf(out[ps[i].msg])|;
                 ps[i].from <= ps[i].to <= len && (ps[i].from < ps[i].to || len == 0)
  {
    hide BodyOf;
    if ps != [] {
      PieceInRange(out, ps[..|ps| - 1], i);
    }
  }

  predicate Follows(p: Piece, q: Piece) { p.msg < q.msg || (p.msg == q.msg && p.to <= q.from) }

  /** Pieces come in message order, and in byte order within a message. */
  lemma {:induction false} PassInOrder(out: seq<Outgoing>, ps: seq<Piece>, i: nat)
    requires Walk(out, Cursor(0, 0), ps).Some? && i < |ps|
    ensures var c := Walk(out, Cursor(0, 0), ps).value;
            ps[i].msg < c.written || (ps[i].msg == c.written && ps[i].to <= c.offset)
    ensures forall j :: i < j < |ps| ==> Follows(ps[i], ps[j])
  {
    hide BodyOf;
    var n := |ps| - 1;
    if i < n {
      PassInOrder(out, ps[..n], i);
      forall j | i < j < |ps|
        ensures Follows(ps[i], ps[j])
      {
        if j < n { assert ps[..n][j] == ps[j]; }
      }
    }
  }
}
