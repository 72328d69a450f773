/** The sender as it runs: building messages, queueing a flight, sealing and writing its datagrams. */
module FlightSender {
  import opened Bits
  import opened NetworkOrder
  import opened HandshakeFormat
  import opened RecordReader
  import opened RecordWriter
  import opened RetransmitTimer
  import opened Flight
  import opened FlightPass
  import opened SenderHistory
  import opened CleanPass
  import opened SenderState
  import Transport

  /** The header with its last three bytes copied over the message length. */
  lemma {:induction false} FixedUp(kind: byte, seq_: nat, body: seq<byte>, data: seq<byte>)
    requires var bytes := HeaderBytes(kind, 0, seq_, 0, |body|) + body;
             data == bytes[1 := bytes[9]][2 := bytes[10]][3 := bytes[11]]
    ensures data == FragmentBytes(Fragment(kind, |body|, seq_, 0, body))
  {
    hide BigEndian;
    var bytes := HeaderBytes(kind, 0, seq_, 0, |body|) + body;
    assert bytes[9..12] == BigEndian(|body|, 3);
    assert bytes[9] == bytes[9..12][0] && bytes[10] == bytes[9..12][1] && bytes[11] == bytes[9..12][2];
  }

  datatype SealResult = SealError | NoProgress | SealPartial | SealSuccess

  /** The cursor is where the attempts of this pass have brought it, and the datagrams accepted since the
      pass began are theirs. */
  ghost predicate PassState(out: seq<Outgoing>, c: Cursor, attempts: seq<Attempt>,
                            network: seq<seq<SealedPiece>>, passStart: nat) {
    && AfterAttempts(out, attempts) == Some(c)
    && passStart <= |network| && network[passStart..] == Datagrams(attempts)
  }

  lemma {:induction false} PassStarts(out: seq<Outgoing>, network: seq<seq<SealedPiece>>)
    ensures PassState(out, Cursor(0, 0), [], network, |network|)
  {
  }

  lemma {:induction false} PassStep(out: seq<Outgoing>, c: Cursor, attempts: seq<Attempt>, network: seq<seq<SealedPiece>>, passStart: nat, a: Attempt)
    requires PassState(out, c, attempts, network, passStart) && AttemptOk(out, c, a)
    ensures PassState(out, AfterAttempt(out, c, a).value, attempts + [a],
                      network + Datagrams([a]), passStart)
    ensures Datagrams([a]) == if a.result.Accepted? then [a.ds] else []
  {
    hide Walk, Genuine, RecordsOf;
    DatagramsMore(attempts, a);
    DatagramsMore([], a);
    assert [] + [a] == [a];
    assert (attempts + [a])[..|attempts|] == attempts;
    assert AfterAttempts(out, attempts + [a]) == AfterAttempt(out, c, a);
    assert Datagrams(attempts + [a]) == Datagrams(attempts) + Datagrams([a]);
    assert (network + Datagrams([a]))[passStart..] == network[passStart..] + Datagrams([a]);
    assert passStart <= |network + Datagrams([a])|;
  }

  lemma {:induction false} NoDatagrams(network: seq<seq<SealedPiece>>)
    ensures network + Datagrams([]) == network
  {
  }

  lemma {:induction false} DatagramsOne(network: seq<seq<SealedPiece>>, more: seq<Attempt>, a: Attempt)
    ensures network + Datagrams(more) + Datagrams([a]) == network + Datagrams(more + [a])
  {
    DatagramsMore(more, a);
    DatagramsMore([], a);
    assert [] + [a] == [a];
  }

  lemma {:induction false} PassGrows(out: seq<Outgoing>, m: Outgoing, c: Cursor, attempts: seq<Attempt>,
                  network: seq<seq<SealedPiece>>, passStart: nat)
    requires PassState(out, c, attempts, network, passStart)
    ensures PassState(out + [m], c, attempts, network, passStart)
  {
    PassLonger(out, m, attempts);
  }

  lemma {:induction false} StandsForItself(kind: byte, body: seq<byte>, writeSeq: nat)
    ensures StandsFor(FragmentBytes(Fragment(kind, |body|, writeSeq, 0, body)), Transport.Sent(kind, body), writeSeq) <==> |body| < TWO_24
  {
  }

  class Sender {
    const writer: Writer
    const timer: Timer
    var outgoing: seq<Outgoing>
    var written: nat
    var offset: nat
    var complete: bool
    var hasReply: bool
    var writeSeq: nat
    var mtu: nat
    var transcript: seq<byte>

    /** The datagrams tried since the cursor was last at the start of the flight. */
    ghost var attempts: seq<Attempt>
    /** Every datagram accepted ever, and how many of them were before this pass. */
    ghost var network: seq<seq<SealedPiece>>
    ghost var passStart: nat
    /** The messages submitted, and which of them were added during a handshake. */
    ghost var sent: seq<Transport.Sent>
    ghost var counted: seq<bool>
    /** The write keys of all epochs so far. */
    ghost var keyring: seq<SealKeys>
    /** Every message added so far had been built by this sender, and the epoch has not wrapped. */
    ghost var honest: bool

    ghost function At(): Cursor
      reads this
    {
      Cursor(written, offset)
    }

    /** The sender as a value. */
    ghost function View(): WriteSide
      reads this, writer, timer
    {
      WriteSide(sent, counted, transcript, writeSeq, outgoing, At(), complete, hasReply, attempts, network, writer.epoch, keyring,
                timer.Now(), timer.initialMs, mtu)
    }

    ghost function Repr(): set<object> { {this, timer} + writer.Repr() }

    ghost predicate Sound()
      reads Repr()
    {
      && writer.Valid() && timer.Valid() && writeSeq < TWO_16
      && CursorOk(outgoing, At()) && |outgoing| <= MAX_FLIGHT
      && forall i :: 0 <= i < |outgoing| ==> outgoing[i].epoch < 65536
    }

    ghost predicate Valid()
      reads Repr()
    {
      && Sound()
      && PassState(outgoing, At(), attempts, network, passStart)
      && (honest ==> History(sent, counted, outgoing, writeSeq, transcript, network) && Keyed(keyring, Keys(), network))
    }

    ghost function Keys(): KeyState
      reads writer
    {
      KeyState(writer.epoch, writer.keys, writer.lastKeys)
    }

    constructor (keys: SealKeys, initialMs: nat, mtu: nat)
      requires Bounded(keys) && initialMs < TWO_32
      ensures Valid() && fresh(Repr()) && outgoing == [] && writeSeq == 0 && transcript == [] && !complete
      ensures network == [] && sent == [] && counted == [] && honest && keyring == [keys]
      ensures View() == WriteSide([], [], [], 0, [], Cursor(0, 0), false, false, [], [], 0, [keys], Clock(NEVER, 0, 0), initialMs, mtu)
    {
      writer := new Writer(keys);
      timer := new Timer(initialMs);
      outgoing, written, offset, complete, hasReply, writeSeq, transcript := [], 0, 0, false, false, 0, [];
      this.mtu := mtu;
      attempts, network, passStart, sent, counted, keyring, honest := [], [], 0, [], [], [keys], true;
      new;
      PassStarts([], []);
    }

    // ----- building and queueing

    /** A handshake message as it is queued: the fragment length at the end of its header is copied to
        the message length.  None when the body does not fit its 24-bit length. */
    method BuildMessage(kind: byte, body: seq<byte>) returns (msg: Option<seq<byte>>)
      requires Valid()
      ensures Valid()
      ensures msg == if |body| >= TWO_24 then None
                     else Some(FragmentBytes(Fragment(kind, |body|, writeSeq, 0, body)))
    {
      hide PassState, History, Keyed, CursorOk, BigEndian;
      if |body| >= TWO_24 { return None; }
      var bytes := HeaderBytes(kind, 0, writeSeq, 0, |body|) + body;
      var data := new byte[|bytes|](i requires 0 <= i < |bytes| => bytes[i]);
      data[1], data[2], data[3] := data[HM_HEADER - 3], data[HM_HEADER - 2], data[HM_HEADER - 1];
      FixedUp(kind, writeSeq, body, data[..]);
      msg := Some(data[..]);
    }

    method Clear()
      requires Valid()
      modifies this`outgoing, this`written, this`offset, this`complete, this`hasReply, this`attempts, this`passStart
      ensures Valid() && outgoing == [] && !complete && !hasReply && At() == Cursor(0, 0)
      ensures attempts == [] && passStart == |network|
    {
      hide PassState, BodyOf, History, Keyed, Writer.Valid, Timer.Valid, AfterAttempts;
      if honest { QueueCleared(sent, counted, outgoing, writeSeq, transcript, network); }
      outgoing, written, offset, complete, hasReply := [], 0, 0, false, false;
      attempts, passStart := [], |network|;
      PassStarts([], network);
    }

    /** A completed flight is dropped and its timer stopped, and the next one begins; any other stays as it is. */
    twostate predicate FlightBegun()
      reads this, timer
    {
      && !complete
      && if old(complete) then At() == Cursor(0, 0) && !hasReply && attempts == [] && timer.Now() == Clock(NEVER, timer.initialMs, 0)
         else At() == old(At()) && hasReply == old(hasReply) && attempts == old(attempts) && timer.Now() == old(timer.Now())
    }

    /** If a flight was sent, its reply has arrived: the timer and the flight are dropped. */
    method StartFlight()
      requires Valid()
      modifies this`outgoing, this`written, this`offset, this`complete, this`hasReply, this`attempts, this`passStart
      modifies timer
      ensures Valid() && outgoing == (if old(complete) then [] else old(outgoing)) && FlightBegun()
    {
      hide PassState, History, Keyed, CursorOk, Writer.Valid, Micros, Backoff;
      if complete {
        timer.Stop();
        Clear();
      }
    }

    /** A message leaves its mark on transcript and numbering; s is what the data stands for. */
    method Submit(data: seq<byte>, inHandshake: bool, ghost s: Transport.Sent)
      requires Valid()
      modifies this`writeSeq, this`transcript, this`sent, this`counted, this`honest
      ensures Valid() && (honest ==> QueuedFrom(sent, Outgoing(data, writer.epoch, false)))
      ensures transcript == old(transcript) + if inHandshake then data else []
      ensures writeSeq == (old(writeSeq) + 1) % TWO_16 && sent == old(sent) + [s] && counted == old(counted) + [inHandshake]
      ensures honest == (old(honest) && StandsFor(data, s, old(writeSeq)))
    {
      hide PassState, History, Keyed, StandsFor, QueuedFrom, CursorOk, Writer.Valid, Timer.Valid;
      honest := honest && StandsFor(data, s, writeSeq);
      if honest {
        Submitted(sent, counted, outgoing, writeSeq, transcript, network, s, Outgoing(data, writer.epoch, false), inHandshake);
      }
      sent, counted := sent + [s], counted + [inHandshake];
      transcript := transcript + if inHandshake then data else [];
      writeSeq := (writeSeq + 1) % TWO_16;
    }

    method Append(m: Outgoing)
      requires Valid() && |outgoing| < MAX_FLIGHT && m.epoch < 65536
      requires honest ==> QueuedFrom(sent, m)
      modifies this`outgoing
      ensures Valid() && outgoing == old(outgoing) + [m]
    {
      hide PassState, History, Keyed, QueuedFrom, BodyOf, Writer.Valid, Timer.Valid;
      PassGrows(outgoing, m, At(), attempts, network, passStart);
      if honest { Queued(sent, counted, outgoing, writeSeq, transcript, network, m); }
      outgoing := outgoing + [m];
    }

    /** Adds to the flight at hand. */
    method Enqueue(isCcs: bool, data: seq<byte>, inHandshake: bool, ghost s: Transport.Sent)
      requires Valid() && |outgoing| < MAX_FLIGHT && |data| < TWO_32
      modifies this`outgoing, this`writeSeq, this`transcript, this`sent, this`counted, this`honest
      ensures Valid() && outgoing == old(outgoing) + [Outgoing(data, writer.epoch, isCcs)]
      ensures transcript == old(transcript) + if !isCcs && inHandshake then data else []
      ensures writeSeq == if isCcs then old(writeSeq) else (old(writeSeq) + 1) % TWO_16
      ensures sent == old(sent) + (if isCcs then [] else [s]) && counted == old(counted) + if isCcs then [] else [inHandshake]
      ensures honest == (old(honest) && (isCcs || StandsFor(data, s, old(writeSeq))))
    {
      assert writer.epoch < 65536;
      CcsQueued(sent, data, writer.epoch);
      hide Valid, Sound, PassState, History, Keyed, StandsFor, QueuedFrom, CursorOk, Writer.Valid, Timer.Valid;
      if !isCcs { Submit(data, inHandshake, s); }
      Append(Outgoing(data, writer.epoch, isCcs));
    }

    /** Queues a message or a ChangeCipherSpec; a completed flight is dropped first.  Messages go into
        the transcript while there is a handshake. */
    method AddOutgoing(isCcs: bool, data: seq<byte>, inHandshake: bool, ghost s: Transport.Sent) returns (ok: bool)
      requires Valid()
      modifies this`outgoing, this`written, this`offset, this`complete, this`hasReply, this`attempts, this`passStart
      modifies this`writeSeq, this`transcript, this`sent, this`counted, this`honest, timer
      ensures Valid()
      ensures var queue := if old(complete) then [] else old(outgoing);
              && ok == (|queue| < MAX_FLIGHT && |data| < TWO_32)
              && outgoing == (if ok then queue + [Outgoing(data, writer.epoch, isCcs)] else queue)
      ensures transcript == old(transcript) + if ok && !isCcs && inHandshake then data else []
      ensures writeSeq == if ok && !isCcs then (old(writeSeq) + 1) % TWO_16 else old(writeSeq)
      ensures FlightBegun() && sent == old(sent) + (if ok && !isCcs then [s] else [])
      ensures counted == old(counted) + if ok && !isCcs then [inHandshake] else []
      ensures honest == (old(honest) && (!ok || isCcs || StandsFor(data, s, old(writeSeq))))
    {
      hide Valid, Sound, PassState, History, Keyed, StandsFor, QueuedFrom, CursorOk, Writer.Valid, Timer.Valid, Timer.Running;
      StartFlight();
      if |outgoing| >= MAX_FLIGHT || |data| > 0xffff_ffff { return false; }
      Enqueue(isCcs, data, inHandshake, s);
      ok := true;
    }

    /** Builds a message and adds it to the flight, unless its body is too long or the flight has seven messages
        already: the sender stays honest. */
    method AddMessage(kind: byte, body: seq<byte>, inHandshake: bool) returns (ok: bool)
      requires Valid()
      modifies this`outgoing, this`written, this`offset, this`complete, this`hasReply, this`attempts, this`passStart
      modifies this`writeSeq, this`transcript, this`sent, this`counted, this`honest, timer
      ensures Valid() && honest == old(honest) && View() == MessageAdded(old(View()), kind, body, inHandshake)
      ensures var queue := if old(complete) then [] else old(outgoing);
              ok == (|body| < 0x100_0000 && |queue| < 7)
    {
      hide Valid, Sound, FragmentBytes, Transport.TranscriptBytes;
      StandsForItself(kind, body, writeSeq);
      var msg := BuildMessage(kind, body);
      if msg.None? { return false; }
      ok := AddOutgoing(false, msg.value, inHandshake, Transport.Sent(kind, body));
    }

    /** Adds a ChangeCipherSpec to the flight, which counts as a message of it, but has no number and is not
        part of the transcript. */
    method AddChangeCipherSpec() returns (ok: bool)
      requires Valid()
      modifies this`outgoing, this`written, this`offset, this`complete, this`hasReply, this`attempts, this`passStart
      modifies this`writeSeq, this`transcript, this`sent, this`counted, this`honest, timer
      ensures Valid() && honest == old(honest) && View() == Added(Begun(old(View())), Outgoing([], writer.epoch, true))
      ensures var queue := if old(complete) then [] else old(outgoing);
              ok == (|queue| < 7)
    {
      hide Valid, Sound, PassState, History, Keyed, CursorOk;
      ok := AddOutgoing(true, [], false, Transport.Sent(0, []));
    }

    // ----- sealing

    /** The message under the cursor was queued in the epoch before the current one. */
    ghost predicate OfPrevious()
      requires written < |outgoing|
      reads this, writer
    {
      outgoing[written].epoch != writer.epoch
    }

    /** The next piece can be sealed: its message can, there is room for progress, the AEAD has an answer
        that fits, and there is a number left after the one it uses. */
    ghost predicate SealsNext(maxOut: nat, fails: bool)
      requires Sound() && written < |outgoing|
      reads Repr()
    {
      var m, ks := outgoing[written], Keys();
      && Sealable(m, ks) && maxOut >= Need(m, ks)
      && var c := writer.Ciphertext(if m.isCcs then KIND_CCS else KIND_HANDSHAKE, PieceText(m, offset, ks, maxOut),
                                    OfPrevious(), maxOut, fails);
         c.Some? && |c.value| < 65536 && PairOf(RecordWriter.State(writer.ops), OfPrevious()).1 + 1 < TWO_48
    }

    /** What sealing the next piece comes to: no progress for want of room, an error exactly when the piece
        cannot be sealed, or the piece, as long as the room allows, in a record of its own. */
    twostate predicate SealedNext(new maxOut: nat, new fails: bool, new r: SealResult, new out: seq<byte>, new d: SealedPiece)
      requires old(Sound() && written < |outgoing|)
      reads Repr()
    {
      && Sound() && |out| <= maxOut && written == old(written) && outgoing == old(outgoing) && Keys() == old(Keys())
      && (r.SealError? || r.NoProgress? ==> offset == old(offset))
      && (r.NoProgress? <==> Sealable(outgoing[written], Keys()) && maxOut < Need(outgoing[written], Keys()))
      && (r.NoProgress? ==> writer.ops == old(writer.ops))
      && (r.SealPartial? || r.SealSuccess? <==> old(SealsNext(maxOut, fails)))
      && (r.SealPartial? || r.SealSuccess? ==>
            && writer.ops == old(writer.ops) + [Sealed(old(OfPrevious()))]
            && d.plain == PieceText(outgoing[written], old(offset), Keys(), maxOut)
            && d.piece.to == PieceEnd(outgoing[written], old(offset), Keys(), maxOut)
            && out == d.record && Carries(outgoing, d) && Protects(outgoing, Keys(), d)
            && Advance(outgoing, old(At()), d.piece) == Some(if r.SealSuccess? then Cursor(written + 1, 0) else At())
            && (if r.SealSuccess? then offset == 0 else offset > 0))
    }

    /** Seals the next piece of the message under the cursor into a record of at most maxOut bytes. */
    method SealNextMessage(maxOut: nat, fails: bool) returns (r: SealResult, out: seq<byte>, ghost d: SealedPiece)
      requires Sound() && written < |outgoing|
      modifies this`offset, writer`ops, writer.writeSequence, writer.lastWriteSequence
      ensures SealedNext(maxOut, fails, r, out, d)
    {
      hide Writer.Valid, Timer.Valid, Bounded, FragmentBytes, ParseFragment, RecordBytes, RecordWriter.State, PairOf;
      out, d := [], SealedPiece(Piece(written, offset, offset), 0, [], (0, 0), [], []);
      var msg := outgoing[written];
      var previous := false;
      if writer.epoch >= 1 && msg.epoch == writer.epoch - 1 {
        previous := true;
      } else if msg.epoch != writer.epoch {
        return SealError, out, d;
      }
      if msg.isCcs {
        r, out, d := SealChangeCipherSpec(maxOut, previous, fails);
      } else {
        r, out, d := SealSlice(maxOut, previous, fails);
      }
    }

    method SealChangeCipherSpec(maxOut: nat, previous: bool, fails: bool)
      returns (r: SealResult, out: seq<byte>, ghost d: SealedPiece)
      requires Sound() && written < |outgoing| && outgoing[written].isCcs && previous == OfPrevious()
      requires outgoing[written].epoch == writer.epoch || outgoing[written].epoch + 1 == writer.epoch
      modifies this`offset, writer`ops, writer.writeSequence, writer.lastWriteSequence
      ensures SealedNext(maxOut, fails, r, out, d)
    {
      hide Writer.Valid, Timer.Valid, Bounded, FragmentBytes, ParseFragment, RecordBytes, RecordWriter.State, PairOf;
      out, d := [], SealedPiece(Piece(written, 0, 0), 0, [], (0, 0), [], []);
      var overhead := writer.MaxSealOverhead(previous);
      ghost var cipher, pair := [], PairOf(RecordWriter.State(writer.ops), previous);
      EpochOfPair(writer, previous);
      if maxOut < 1 + overhead { return NoProgress, out, d; }
      var record;
      record, cipher := writer.SealRecord(KIND_CCS, CCS_BODY, previous, maxOut, fails);
      if record.None? { return SealError, out, d; }
      r, out := SealSuccess, record.value;
      d := SealedPiece(Piece(written, 0, 0), KIND_CCS, CCS_BODY, pair, cipher, out);
    }

    method SealSlice(maxOut: nat, previous: bool, fails: bool)
      returns (r: SealResult, out: seq<byte>, ghost d: SealedPiece)
      requires Sound() && written < |outgoing| && !outgoing[written].isCcs && previous == OfPrevious()
      requires outgoing[written].epoch == writer.epoch || outgoing[written].epoch + 1 == writer.epoch
      modifies this`offset, writer`ops, writer.writeSequence, writer.lastWriteSequence
      ensures SealedNext(maxOut, fails, r, out, d)
    {
      hide Writer.Valid, Timer.Valid, Bounded, FragmentBytes, ParseFragment, RecordBytes, RecordWriter.State, PairOf;
      out, d := [], SealedPiece(Piece(written, offset, offset), 0, [], (0, 0), [], []);
      var msg := outgoing[written];
      var overhead, prefix := writer.MaxSealOverhead(previous), writer.SealPrefixLen(previous);
      ghost var cipher, pair := [], PairOf(RecordWriter.State(writer.ops), previous);
      PrefixShort(writer, previous);
      EpochOfPair(writer, previous);
      var p := ParseFragment(msg.data);
      if p.Bad? { return SealError, out, d; }
      var f := p.value;
      if f.off != 0 || f.msgLen != |f.body| || offset > |f.body| || p.len != |msg.data| { return SealError, out, d; }
      if maxOut < HM_HEADER + 1 + overhead || maxOut < prefix { return NoProgress, out, d; }
      var todo := |f.body| - offset;
      if todo > maxOut - HM_HEADER - overhead { todo := maxOut - HM_HEADER - overhead; }
      var plain := FragmentBytes(Fragment(f.kind, f.msgLen, f.seq_, offset, f.body[offset..offset + todo]));
      if |plain| > maxOut - prefix { return SealError, out, d; }
      var record;
      record, cipher := writer.SealRecord(KIND_HANDSHAKE, plain, previous, maxOut, fails);
      if record.None? { return SealError, out, d; }
      out := record.value;
      d := SealedPiece(Piece(written, offset, offset + todo), KIND_HANDSHAKE, plain, pair, cipher, out);
      r := if todo == |f.body| - offset then SealSuccess else SealPartial;
      offset := if r.SealSuccess? then 0 else offset + todo;
    }

    /** Everything from cursor c on can be sealed, in datagrams of at most maxLen bytes. */
    ghost predicate ReadyFrom(c: Cursor, maxLen: nat)
      reads this, writer
    {
      Ready(outgoing, c, Keys(), RecordWriter.State(writer.ops), maxLen)
    }

    lemma {:induction false} ReadyNext(maxLen: nat, maxOut: nat)
      requires Sound() && written < |outgoing| && ReadyFrom(At(), maxLen) && maxOut <= maxLen
      ensures Sealable(outgoing[written], Keys())
      ensures maxOut >= Need(outgoing[written], Keys()) ==> SealsNext(maxOut, false)
    {
      hide Ready, Sealable, Need, PieceText, RecordWriter.State, Timer.Valid, Bounded, BigEndian;
      var ks, previous := Keys(), OfPrevious();
      var counters := RecordWriter.State(writer.ops);
      var pair := PairOf(counters, previous);
      var header := BigEndian(pair.0, 2) + BigEndian(pair.1, 6);
      var kind := if outgoing[written].isCcs then KIND_CCS else KIND_HANDSHAKE;
      if maxOut >= Need(outgoing[written], ks) {
        ReadySeals(outgoing, At(), ks, counters, maxLen, maxOut, kind, header);
      } else {
        ReadySealable(outgoing, At(), ks, counters, maxLen);
      }
    }

    /** A datagram with room bytes left takes no more: the flight is at its end, the last piece did not finish
        its message, or the next message can be sealed but has no room. */
    ghost predicate PacketFull(room: nat)
      reads this, writer
    {
      || written >= |outgoing| || offset > 0
      || (Sealable(outgoing[written], Keys()) && room < Need(outgoing[written], Keys()))
    }

    /** One piece of a datagram that takes up to maxOut bytes and has room bytes left.  While the flight is
        ready and the AEAD works there is no error, and the rest stays ready. */
    method SealPiece(room: nat, maxOut: nat, fails: bool) returns (r: SealResult, out: seq<byte>, ghost d: SealedPiece)
      requires Sound() && written < |outgoing| && room <= maxOut
      modifies this`offset, writer`ops, writer.writeSequence, writer.lastWriteSequence
      ensures Sound() && Keys() == old(Keys())
      ensures r.NoProgress? <==> Sealable(outgoing[written], Keys()) && room < Need(outgoing[written], Keys())
      ensures r.SealError? || r.NoProgress? ==> offset == old(offset)
      ensures r.SealPartial? || r.SealSuccess? ==>
                && |out| <= room && out == d.record && Carries(outgoing, d) && Protects(outgoing, Keys(), d)
                && Advance(outgoing, old(At()), d.piece) == Some(if r.SealSuccess? then Cursor(written + 1, 0) else At())
                && (if r.SealSuccess? then offset == 0 else offset > 0)
      ensures old(ReadyFrom(At(), maxOut)) && !fails ==>
                !r.SealError? && ReadyFrom(if r.SealSuccess? then Cursor(written + 1, 0) else At(), maxOut)
    {
      hide Carries, Protects, Advance, BodyOf, Writer.Valid, Timer.Valid, Sealable, Need, Ready, RecordWriter.State, PieceText, PieceEnd;
      ghost var ready := ReadyFrom(At(), maxOut) && !fails;
      ghost var c, ops, counters, previous := At(), writer.ops, RecordWriter.State(writer.ops), OfPrevious();
      if ready { ReadyNext(maxOut, room); }
      r, out, d := SealNextMessage(room, fails);
      StateAfter(ops, Sealed(previous));
      if ready && !r.NoProgress? { ReadyStep(outgoing, c, d.piece, Keys(), counters, previous, maxOut); }
    }

    /** Fills a datagram of at most maxOut bytes, and succeeds exactly when it got something into it and it
        takes no more.  On failure the cursor may already have passed some pieces. */
    method SealNextPacket(maxOut: nat, fails: Cursor -> bool) returns (ok: bool, packet: seq<byte>, ghost ds: seq<SealedPiece>)
      requires Sound() && written < |outgoing|
      modifies this`written, this`offset, writer`ops, writer.writeSequence, writer.lastWriteSequence
      ensures Sound() && Walk(outgoing, old(At()), PiecesIn(ds)) == Some(At())
      ensures Genuine(outgoing, Keys(), ds) && packet == RecordsOf(ds) && |packet| <= maxOut
      ensures ok <==> ds != [] && PacketFull(maxOut - |packet|)
      ensures old(ReadyFrom(At(), maxOut)) && (forall c :: !fails(c)) ==>
                && ReadyFrom(At(), maxOut) && (!ok ==> ds == [])
                && (maxOut >= Need(outgoing[old(written)], Keys()) ==> ok)
    {
      hide Carries, Protects, Advance, Walk, PiecesIn, RecordsOf, BodyOf, Writer.Valid, Timer.Valid;
      hide Sealable, Need, Ready, RecordWriter.State;
      packet, ds := [], [];
      ghost var ready := ReadyFrom(At(), maxOut) && forall c :: !fails(c);
      NoPieces(outgoing, At());
      var left: nat, madeProgress := maxOut, false;
      while written < |outgoing|
        invariant Sound() && left + |packet| == maxOut
        invariant Walk(outgoing, old(At()), PiecesIn(ds)) == Some(At())
        invariant Genuine(outgoing, Keys(), ds)
        invariant packet == RecordsOf(ds) && (madeProgress <==> ds != [])
        invariant ready ==> ReadyFrom(At(), maxOut)
        invariant if ds == [] then At() == old(At()) && left == maxOut else offset == 0
        decreases |outgoing| - written
      {
        var r, out;
        ghost var d;
        r, out, d := SealPiece(left, maxOut, fails(Cursor(written, offset)));
        if r.SealError? { return false, packet, ds; }
        if r.NoProgress? { break; }
        packet, left := packet + out, left - |out|;
        OneMore(outgoing, old(At()), ds, d);
        ds, madeProgress := ds + [d], true;
        if r.SealPartial? { break; }
        written := written + 1;
      }
      ok := madeProgress;
    }

    // ----- writing

    /** The MTU is queried from the transport when it is below the minimum; the answer counts if it is between
        that and 2^30. */
    method UpdateMtu(queryMtu: bool, offered: int)
      requires Valid()
      modifies this`mtu
      ensures Valid() && mtu == NextMtu(old(mtu), queryMtu, offered)
      ensures mtu == if old(mtu) >= 228 || !queryMtu then old(mtu) else if 228 <= offered <= 1073741824 then offered else 1472
    {
      if mtu < MIN_MTU && queryMtu {
        mtu := if offered >= 0 && offered <= 0x4000_0000 && offered >= MIN_MTU then offered else DEFAULT_MTU;
      }
    }

    /** The cursor has moved on from an earlier position. */
    ghost predicate Moved(from: Cursor)
      reads this
    {
      written > from.written || (written == from.written && offset > from.offset)
    }

    /** Seals and writes one datagram.  A refused write puts the cursor back to the start of its datagram,
        so that a later call goes on from there; a failed sealing does not. */
    method SendDatagram(outside: Outside) returns (r: SendResult, ghost a: Attempt)
      requires Valid() && written < |outgoing|
      modifies this`written, this`offset, this`attempts, this`network
      modifies writer`ops, writer.writeSequence, writer.lastWriteSequence
      ensures Valid() && r in {FlightSent, Blocked, SealFailure} && attempts == old(attempts) + [a]
      ensures network == old(network) + Datagrams([a])
      ensures a.mtu == mtu && a.ks == Keys()
      ensures a.result == (match r case FlightSent => Accepted case Blocked => Refused case _ => SealFailed)
      ensures r.FlightSent? ==> Moved(old(At())) && outside.accepts(old(At()))
      ensures r.Blocked? ==> At() == old(At()) && !outside.accepts(At())
      ensures old(ReadyFrom(At(), mtu)) && Reliable(outside) ==>
                && !Dropping(a) && (r.FlightSent? ==> ReadyFrom(At(), mtu))
                && (old(mtu >= Need(outgoing[written], Keys())) ==> !r.SealFailure?)
    {
      hide Ready, Need, PacketFull;
      hide PassState, History, Keyed, Genuine, Walk, PiecesIn, RecordsOf, BodyOf, Writer.Valid, Timer.Valid;
      var oldWritten, oldOffset := written, offset;
      var ok, packet;
      ghost var ds, before := [], At();
      ok, packet, ds := SealNextPacket(mtu, outside.fails);
      if !ok {
        a := Attempt(ds, SealFailed, Keys(), mtu);
        Step(a, before);
        return SealFailure, a;
      }
      if !outside.accepts(Cursor(oldWritten, oldOffset)) {
        written, offset := oldWritten, oldOffset;
        a := Attempt(ds, Refused, Keys(), mtu);
        Step(a, before);
        return Blocked, a;
      }
      WalkMoves(outgoing, before, PiecesIn(ds));
      assert PiecesIn(ds) != [] by { PiecesCount(ds); }
      a := Attempt(ds, Accepted, Keys(), mtu);
      Step(a, before);
      r := FlightSent;
    }

    /** Writes what is left of the flight, one datagram after the other, and flushes. */
    method WriteFlight(outside: Outside) returns (r: SendResult, ghost more: seq<Attempt>)
      requires Valid()
      modifies this`written, this`offset, this`attempts, this`network
      modifies writer`ops, writer.writeSequence, writer.lastWriteSequence
      ensures Valid() && attempts == old(attempts) + more && network == old(network) + Datagrams(more)
      ensures SendEnds(r, more, false, outside, At(), |outgoing|)
      ensures (!r.SealFailure? ==> NothingDropped(more)) && forall k :: 0 <= k < |more| ==> more[k].mtu == mtu
      ensures old(ReadyFrom(At(), mtu)) && Reliable(outside) ==>
                NothingDropped(more) && (Roomy(outgoing, Keys(), mtu) ==> !r.SealFailure?)
    {
      hide PassState, History, Keyed, BodyOf, Writer.Valid, Timer.Valid, Ready, Need, RecordWriter.State, AllAccepted, SendEnds, Datagrams;
      more := [];
      ghost var ready := ReadyFrom(At(), mtu) && Reliable(outside);
      NothingSent(outside, At(), |outgoing|);
      assert attempts == attempts + more && network == network + Datagrams(more) by { NoDatagrams(network); }
      while written < |outgoing|
        invariant Valid() && attempts == old(attempts) + more && AllAccepted(more) && NothingDropped(more)
        invariant network == old(network) + Datagrams(more)
        invariant forall k :: 0 <= k < |more| ==> more[k].mtu == mtu
        invariant ready ==> ReadyFrom(At(), mtu)
        decreases |outgoing| - written, if written < |outgoing| then |BodyOf(outgoing[written])| - offset else 0
      {
        ghost var a;
        r, a := SendDatagram(outside);
        assert old(attempts) + more + [a] == old(attempts) + (more + [a]);
        DatagramsOne(old(network), more, a);
        AnotherAttempt(more, a, r, outside, At(), |outgoing|);
        more := more + [a];
        if r != FlightSent { return; }
      }
      FlightEnds(more, outside, At(), |outgoing|);
      r := if outside.flushes then FlightSent else Blocked;
    }

    /** Sends what is left of the flight, unless the connection was shut down. */
    method SendFlight(shutDown: bool, queryMtu: bool, offered: int, outside: Outside)
      returns (r: SendResult, ghost more: seq<Attempt>)
      requires Valid()
      modifies this`written, this`offset, this`attempts, this`network, this`mtu
      modifies writer`ops, writer.writeSequence, writer.lastWriteSequence
      ensures Valid() && attempts == old(attempts) + more && mtu == NextMtu(old(mtu), queryMtu && !shutDown, offered)
      ensures SentOn(old(View()), r, more, shutDown, queryMtu, offered, outside, View())
      ensures (!r.SealFailure? ==> NothingDropped(more)) && forall k :: 0 <= k < |more| ==> more[k].mtu == mtu
      ensures old(ReadyFrom(At(), NextMtu(mtu, queryMtu && !shutDown, offered))) && Reliable(outside) ==>
                NothingDropped(more) && (Roomy(outgoing, Keys(), mtu) ==> !r.SealFailure?)
    {
      hide PassState, History, Keyed, BodyOf, Writer.Valid, Timer.Valid, Ready, Need, RecordWriter.State, SendEnds, NothingDropped,
           CursorOk;
      more := [];
      NothingSent(outside, At(), |outgoing|);
      if shutDown {
        assert attempts == attempts + more && network == network + Datagrams(more) by { NoDatagrams(network); }
        return ShutDown, more;
      }
      UpdateMtu(queryMtu, offered);
      r, more := WriteFlight(outside);
    }

    /** The flight is complete: arm the timer and send it, or go on sending it. */
    method FlushFlight(now: Time, shutDown: bool, queryMtu: bool, offered: int, outside: Outside)
      returns (r: SendResult, ghost more: seq<Attempt>)
      requires Valid() && Normal(now)
      modifies this`complete, this`written, this`offset, this`attempts, this`network, this`mtu, timer
      modifies writer`ops, writer.writeSequence, writer.lastWriteSequence
      ensures Valid() && complete && attempts == old(attempts) + more
      ensures SentOn(Flushing(old(View()), now), r, more, shutDown, queryMtu, offered, outside, View())
      ensures !r.SealFailure? ==> NothingDropped(attempts) == NothingDropped(old(attempts))
      ensures forall k :: 0 <= k < |more| ==> more[k].mtu == mtu
      ensures old(ReadyFrom(At(), NextMtu(mtu, queryMtu && !shutDown, offered))) && Reliable(outside) ==>
                && NothingDropped(attempts) == NothingDropped(old(attempts))
                && (Roomy(outgoing, Keys(), mtu) ==> !r.SealFailure?)
      ensures Micros(timer.nextTimeout) == Micros(now) + 1000 * timer.durationMs
      ensures timer.durationMs == Backoff(timer.initialMs, timer.expiries)
      ensures timer.expiries == if old(timer.Running()) then old(timer.expiries) else 0
      ensures timer.Now() == Armed(timer.initialMs, old(timer.Now()), now)
    {
      hide PassState, History, Keyed, BodyOf, Writer.Valid, SentOn, NothingDropped, Ready, Need, RecordWriter.State, CursorOk;
      complete := true;
      timer.Start(now);
      assert View() == Flushing(old(View()), now);
      r, more := SendFlight(shutDown, queryMtu, offered, outside);
      CleanMore(old(attempts), more);
    }

    /** Sends the whole flight again: a new pass. */
    method Retransmit(shutDown: bool, queryMtu: bool, offered: int, outside: Outside) returns (r: SendResult)
      requires Valid()
      modifies this`written, this`offset, this`attempts, this`passStart, this`network, this`mtu
      modifies writer`ops, writer.writeSequence, writer.lastWriteSequence
      ensures Valid() && passStart == |old(network)|
      ensures SentOn(Rewound(old(View())), r, attempts, shutDown, queryMtu, offered, outside, View())
      ensures !r.SealFailure? ==> NothingDropped(attempts)
      ensures forall k :: 0 <= k < |attempts| ==> attempts[k].mtu == mtu
      ensures mtu == NextMtu(old(mtu), queryMtu && !shutDown, offered)
      ensures old(ReadyFrom(Cursor(0, 0), NextMtu(mtu, queryMtu && !shutDown, offered))) && Reliable(outside) ==>
                NothingDropped(attempts) && (Roomy(outgoing, Keys(), mtu) ==> !r.SealFailure?)
    {
      hide PassState, History, Keyed, BodyOf, Writer.Valid, Timer.Valid, SentOn, NothingDropped, Ready, Need, RecordWriter.State;
      written, offset := 0, 0;
      attempts, passStart := [], |network|;
      PassStarts(outgoing, network);
      ghost var more;
      r, more := SendFlight(shutDown, queryMtu, offered, outside);
      assert [] + more == more;
    }

    /** A timeout retransmits the flight, with a longer duration, until there were too many; r is None
        when nothing was sent.  After two timeouts the transport may have a smaller MTU to fall back on. */
    method HandleTimeout(now: Time, fallback: int, shutDown: bool, queryMtu: bool, offered: int, outside: Outside)
      returns (expired: bool, r: Option<SendResult>)
      requires Valid() && Normal(now)
      modifies this`written, this`offset, this`attempts, this`passStart, this`network, this`mtu, timer
      modifies writer`ops, writer.writeSequence, writer.lastWriteSequence
      ensures Valid()
      ensures expired <==> old(timer.Running()) && Micros(old(timer.nextTimeout)) < Micros(now) + 15000
      ensures r.Some? <==> expired && timer.numTimeouts <= 12
      ensures expired == Expired(old(timer.Now()), now) && r.Some? == Retransmits(old(timer.Now()), now)
      ensures var counted := Handling(old(View()), now, queryMtu, fallback);
              if r.Some? then SentOn(Rewound(counted), r.value, attempts, shutDown, queryMtu, offered, outside, View())
              else View() == counted
      ensures var fallen := if expired && timer.numTimeouts > 2 && queryMtu && 228 <= fallback <= 1073741824 then fallback
                            else old(mtu);
              mtu == if r.Some? then NextMtu(fallen, queryMtu && !shutDown, offered) else fallen
      ensures r.None? ==> passStart == old(passStart)
      ensures r.Some? ==>
                && passStart == |old(network)|
                && (!r.value.SealFailure? ==> NothingDropped(attempts))
                && (forall k :: 0 <= k < |attempts| ==> attempts[k].mtu == mtu)
                && Micros(timer.nextTimeout) == Micros(now) + 1000 * timer.durationMs
                && timer.expiries == old(timer.expiries) + 1 && timer.durationMs == Backoff(timer.initialMs, timer.expiries)
      ensures forall m :: m == mtu && old(ReadyFrom(Cursor(0, 0), m)) && r.Some? && Reliable(outside) ==>
                NothingDropped(attempts) && (Roomy(outgoing, Keys(), m) ==> !r.value.SealFailure?)
    {
      hide PassState, History, Keyed, BodyOf, Writer.Valid, SentOn, NothingDropped, Ready, Need, RecordWriter.State, CursorOk;
      var again, newMtu;
      expired, again, newMtu := timer.HandleTimeout(now, queryMtu, fallback, MIN_MTU, mtu);
      r := None;
      if !expired { return; }
      mtu := newMtu;
      assert View() == Handling(old(View()), now, queryMtu, fallback);
      if again {
        var result;
        result := Retransmit(shutDown, queryMtu, offered, outside);
        r := Some(result);
      }
    }

    /** After the handshake: a flight that had a reply has arrived; any other is kept. */
    method OnHandshakeComplete()
      requires Valid()
      modifies this`outgoing, this`written, this`offset, this`complete, this`hasReply, this`attempts, this`passStart, timer
      ensures Valid() && View() == Finished(old(View())) && !timer.Running()
      ensures outgoing == if old(hasReply) then [] else old(outgoing)
      ensures old(hasReply) ==> At() == Cursor(0, 0) && !complete && !hasReply
    {
      hide PassState, History, Keyed, BodyOf, Writer.Valid, Micros, Backoff;
      timer.Stop();
      if hasReply { Clear(); }
    }

    /** The peer's next message was taken up: a flight that was sent has a reply. */
    method MessageTaken()
      requires Valid()
      modifies this`hasReply
      ensures Valid() && View() == old(View()).(hasReply := old(hasReply) || complete)
    {
      if complete { hasReply := true; }
    }

    /** Books the keys of the next epoch. */
    ghost method GrowKeyring(next: SealKeys) returns (ks: KeyState)
      requires Valid() && Bounded(next)
      modifies this`keyring, this`honest
      ensures keyring == old(keyring) + [next] && honest == (old(honest) && |old(keyring)| < 65536)
      ensures ks == KeyState((writer.epoch + 1) % 65536, next, writer.keys)
      ensures Sound() && PassState(outgoing, At(), attempts, network, passStart)
      ensures honest ==> History(sent, counted, outgoing, writeSeq, transcript, network) && Keyed(keyring, ks, network)
    {
      hide PassState, History, Keyed, CursorOk, Writer.Valid, Timer.Valid, Bounded;
      ks := KeyState((writer.epoch + 1) % 65536, next, writer.keys);
      honest := honest && |keyring| < 65536;
      if honest { KeyringGrows(keyring, Keys(), network, next); }
      keyring := keyring + [next];
    }

    /** Changes the write keys: messages queued before keep the old ones. */
    method SetWriteState(next: SealKeys)
      requires Valid() && Bounded(next)
      modifies writer.Repr(), this`keyring, this`honest
      ensures Valid() && Keys() == KeyState((old(writer.epoch) + 1) % 65536, next, old(writer.keys))
      ensures View() == old(View()).(epoch := (old(writer.epoch) + 1) % 65536, keyring := old(keyring) + [next])
      ensures honest == (old(honest) && |old(keyring)| < 65536)
    {
      hide PassState, History, Keyed, CursorOk, Timer.Valid, Bounded, Legal, RecordWriter.State, Writer.Valid;
      ghost var ks := GrowKeyring(next);
      writer.SetWriteState(next);
      assert Keys() == ks;
    }

    /** The queue of an honest sender can be sent, in whole, while its messages are of the epochs it has keys
        for, the AEAD has answers, numbers are left and the MTU is not beyond the length of a record. */
    lemma {:induction false} HonestReady(maxLen: nat)
      requires Valid() && honest && maxLen < RT_HEADER + 65536
      requires forall i :: 0 <= i < |outgoing| ==> outgoing[i].epoch == writer.epoch || outgoing[i].epoch + 1 == writer.epoch
      requires Total(writer.keys) && Total(writer.lastKeys)
      requires var c := RecordWriter.State(writer.ops);
               c.current + Work(outgoing, Cursor(0, 0)) < TWO_48 && c.previous + Work(outgoing, Cursor(0, 0)) < TWO_48
      ensures ReadyFrom(Cursor(0, 0), maxLen)
    {
      forall i | 0 <= i < |outgoing|
        ensures outgoing[i].isCcs || Formed(outgoing[i])
      {
        assert QueuedFrom(sent, outgoing[i]);
        QueuedFormed(sent, outgoing[i]);
      }
      hide Sound, PassState, History, Keyed, Work, Total, RecordWriter.State;
    }

    // ----- what has been sent

    /** A whole pass, however many calls it took: the datagrams accepted since it began carry the flight
        whole exactly when no sealing failed in the middle of a datagram. */
    lemma {:induction false} WholePass()
      requires Valid() && At() == Cursor(|outgoing|, 0)
      ensures Tiles(outgoing, PiecesIn(FlightPass.Flatten(network[passStart..]))) <==> NothingDropped(attempts)
    {
      TilesExactly(outgoing, attempts);
      DatagramPieces(attempts);
    }

    /** Each of these datagrams fitted the MTU of its attempt. */
    lemma {:induction false} PassFits(i: nat) returns (k: nat)
      requires Valid() && passStart <= i < |network|
      ensures k < |attempts| && attempts[k].result.Accepted? && attempts[k].ds == network[i]
      ensures |RecordsOf(network[i])| <= attempts[k].mtu
    {
      k := DatagramsFit(outgoing, attempts, i - passStart);
    }

    /** All that an honest sender has put on the wire are ChangeCipherSpecs and slices of the messages it
        submitted, as the transition system transmits them, and its transcript is theirs. */
    lemma {:induction false} WireHonest(i: nat, j: nat)
      requires Valid() && honest && |sent| <= TWO_16 && i < |network| && j < |network[i]|
      ensures network[i][j].kind == KIND_CCS || Transport.Genuine(sent, network[i][j].plain)
      ensures |counted| == |sent| && transcript == Transcript(sent, counted)
    {
      assert AllPlainFrom(sent, network[i]);
      WireGenuine(sent, network[i][j]);
    }

    /** Books an attempt that began at an earlier cursor. */
    ghost method Step(a: Attempt, before: Cursor)
      requires Sound() && PassState(outgoing, before, attempts, network, passStart) && AttemptOk(outgoing, before, a)
      requires AfterAttempt(outgoing, before, a) == Some(At())
      requires honest ==> History(sent, counted, outgoing, writeSeq, transcript, network) && Keyed(keyring, Keys(), network)
      requires a.ks == Keys()
      modifies this`attempts, this`network
      ensures Valid() && attempts == old(attempts) + [a] && network == old(network) + Datagrams([a])
    {
      hide PassState, History, Keyed, AttemptOk, AfterAttempt, Datagrams, CursorOk, Writer.Valid, Timer.Valid;
      PassStep(outgoing, before, attempts, network, passStart, a);
      if honest { BookedHistory(sent, counted, outgoing, writeSeq, transcript, network, keyring, before, a); }
      attempts, network := attempts + [a], network + Datagrams([a]);
    }
  }

  /** A datagram that is accepted keeps the history, and any other leaves the wire as it is. */
  lemma {:induction false} BookedHistory(sent: seq<Transport.Sent>, counted: seq<bool>, out: seq<Outgoing>, writeSeq: nat, transcript: seq<byte>,
                      network: seq<seq<SealedPiece>>, keyring: seq<SealKeys>, c: Cursor, a: Attempt)
    requires History(sent, counted, out, writeSeq, transcript, network) && Keyed(keyring, a.ks, network) && AttemptOk(out, c, a)
    ensures History(sent, counted, out, writeSeq, transcript, network + Datagrams([a]))
    ensures Keyed(keyring, a.ks, network + Datagrams([a]))
  {
    assert Genuine(out, a.ks, a.ds);
    hide History, Keyed, Genuine, Walk;
    DatagramsMore([], a);
    assert [] + [a] == [a] && [] + [a.ds] == [a.ds];
    assert network + [] == network;
    if a.result.Accepted? {
      Written(sent, counted, out, writeSeq, transcript, network, a.ks, a.ds);
      KeyedMore(keyring, a.ks, network, out, a.ds);
    }
  }

  lemma {:induction false} PiecesCount(ds: seq<SealedPiece>)
    requires ds != []
    ensures PiecesIn(ds) != []
  {
    assert |PiecesIn(ds)| == |ds|;
  }

  lemma {:induction false} PrefixShort(w: Writer, previous: bool)
    requires w.Valid()
    ensures w.SealPrefixLen(previous) <= w.MaxSealOverhead(previous)
  {
  }

  lemma {:induction false} EpochOfPair(w: Writer, previous: bool)
    requires w.Valid() && (previous ==> w.epoch >= 1)
    ensures PairOf(RecordWriter.State(w.ops), previous).0 == if previous then w.epoch - 1 else w.epoch
  {
  }
}
