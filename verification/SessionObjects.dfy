/** The send and receive halves of the session as objects, with their loops, each proved to put on the
    stream, or to take off it, exactly what the functions of `Session` say.
 */
module SessionObjects {
  import opened Words
  import opened ReplayWindow
  import opened Codec
  import opened Encryption
  import opened EncryptionObjects
  import opened Fragments
  import opened Session

  lemma {:induction false} WireBytesSnocFirst(ps: seq<Piece>)
    requires PiecesFit(ps) && ps != []
    ensures PieceOk(ps[0]) && Fits(PieceFrame(ps[0]).header) && PiecesFit(ps[1..])
    ensures WireBytes(ps) == EncodeFrame(PieceFrame(ps[0])) + WireBytes(ps[1..])
  {
    PieceFrameFits(ps[0]);
  }

  class SecureSender {
    /** Everything written to the stream. */
    var written: Bytes

    constructor ()
      ensures written == []
    {
      written := [];
    }

    method SendOneFragment(index: nat, more: bool, payload: Bytes)
      requires |payload| <= FRAGMENT_SIZE
      modifies this
      ensures PieceOk(Piece(FragmentFlags(index, more), payload))
      ensures Fits(PieceFrame(Piece(FragmentFlags(index, more), payload)).header)
      ensures written == old(written) + EncodeFrame(PieceFrame(Piece(FragmentFlags(index, more), payload)))
    {
      var piece := Piece(FragmentFlags(index, more), payload);
      PieceFrameFits(piece);
      written := written + EncodeFrame(PieceFrame(piece));
    }

    method SendFragments(bytes: Bytes)
      modifies this
      ensures written == old(written) + WireMessage(bytes)
    {
      if |bytes| <= FRAGMENT_SIZE {
        SendOneFragment(0, false, bytes);
        ShortMessage(bytes);
      } else {
        PiecesOk(bytes);
        SendPieces(bytes);
      }
    }

    /** The loop over the pieces of a long message. */
    method SendPieces(bytes: Bytes)
      requires PiecesFit(PiecesFrom(bytes, 0, 0))
      modifies this
      ensures written == old(written) + WireBytes(PiecesFrom(bytes, 0, 0))
    {
      var total: nat, index: nat, offset: nat := |bytes|, 0, 0;
      ghost var goal := old(written) + WireBytes(PiecesFrom(bytes, 0, 0));
      while offset < total
        invariant offset <= total
        invariant PiecesFit(PiecesFrom(bytes, offset, index))
        invariant written + WireBytes(PiecesFrom(bytes, offset, index)) == goal
        decreases total - offset
      {
        var end := if offset + FRAGMENT_SIZE < total then offset + FRAGMENT_SIZE else total;
        var more := end < total;
        NextPiece(bytes, offset, index, end, written);
        SendOneFragment(index, more, bytes[offset..end]);
        index, offset := (index + 1) % U16, end;
      }
      assert PiecesFrom(bytes, offset, index) == [];
    }
  }

  lemma ShortMessage(bytes: Bytes)
    requires |bytes| <= FRAGMENT_SIZE
    ensures PieceOk(Piece(FragmentFlags(0, false), bytes)) && Fits(PieceFrame(Piece(FragmentFlags(0, false), bytes)).header)
    ensures WireMessage(bytes) == EncodeFrame(PieceFrame(Piece(FragmentFlags(0, false), bytes)))
  {
    PiecesOk(bytes);
    WireBytesSnocFirst(Pieces(bytes));
    assert Pieces(bytes)[1..] == [];
  }

  lemma {:induction false} FirstPieceFrom(bytes: Bytes, offset: nat, index: nat, end: nat)
    requires offset < |bytes|
    requires end == if offset + FRAGMENT_SIZE < |bytes| then offset + FRAGMENT_SIZE else |bytes|
    ensures PiecesFrom(bytes, offset, index) ==
              [Piece(FragmentFlags(index, end < |bytes|), bytes[offset..end])] + PiecesFrom(bytes, end, (index + 1) % U16)
  {
  }

  lemma {:induction false} NextPiece(bytes: Bytes, offset: nat, index: nat, end: nat, written: Bytes)
    requires offset < |bytes| && PiecesFit(PiecesFrom(bytes, offset, index))
    requires end == if offset + FRAGMENT_SIZE < |bytes| then offset + FRAGMENT_SIZE else |bytes|
    ensures var p := Piece(FragmentFlags(index, end < |bytes|), bytes[offset..end]);
            && PieceOk(p) && Fits(PieceFrame(p).header)
            && PiecesFit(PiecesFrom(bytes, end, (index + 1) % U16))
            && written + WireBytes(PiecesFrom(bytes, offset, index))
               == written + EncodeFrame(PieceFrame(p)) + WireBytes(PiecesFrom(bytes, end, (index + 1) % U16))
  {
    var p := Piece(FragmentFlags(index, end < |bytes|), bytes[offset..end]);
    FirstPieceFrom(bytes, offset, index, end);
    PutFirst(p, PiecesFrom(bytes, end, (index + 1) % U16), written);
  }

  lemma {:induction false} PutFirst(p: Piece, ps: seq<Piece>, written: Bytes)
    requires PiecesFit([p] + ps)
    ensures PieceOk(p) && Fits(PieceFrame(p).header) && PiecesFit(ps)
    ensures written + WireBytes([p] + ps) == written + EncodeFrame(PieceFrame(p)) + WireBytes(ps)
  {
    var all := [p] + ps;
    assert all[0] == p && all[1..] == ps;
    WireBytesSnocFirst(all);
  }

  class SecureReceiver {
    const adapter: QuicRecvAdapter

    constructor (stream: Bytes)
      ensures adapter.stream == stream && fresh(adapter)
    {
      adapter := new QuicRecvAdapter(stream);
    }

    method ReceiveFragments() returns (r: Received<Bytes>)
      modifies adapter
      ensures WireRead(r, adapter.stream) == RecvFragments(old(adapter.stream))
    {
      ghost var before := adapter.stream;
      var first := adapter.ReceiveFrame();
      if first.Err? { return Failed(AdapterFailed(first.error)); }
      RecvFragmentsGoesOn(before, first.value, adapter.stream);
      r := GoOn(first.value);
    }

    /** After the first frame: the whole message already, or the start of one. */
    method GoOn(first: Frame) returns (r: Received<Bytes>)
      modifies adapter
      ensures WireRead(r, adapter.stream) == CollectWire(old(adapter.stream), First(FramePiece(first)))
    {
      FirstCases(first);
      DoneReadsNoMore(adapter.stream, first.payload);
      var more := first.header.flags % 2 == 1;
      if first.header.flags / 2 == 0 && !more { return Got(first.payload); }
      if !more { return Got(first.payload); }
      r := CollectFragments(first.payload, first.header.flags / 2 + 1);
    }

    /** The loop over the fragments after the first. */
    method CollectFragments(start: Bytes, next: nat) returns (r: Received<Bytes>)
      modifies adapter
      ensures WireRead(r, adapter.stream) == CollectWire(old(adapter.stream), Collecting(start, next))
    {
      var payload, expected, more := start, next, true;
      ghost var goal := CollectWire(adapter.stream, Collecting(start, next));
      while more
        invariant CollectWire(adapter.stream, if more then Collecting(payload, expected) else Done(payload)) == goal
        decreases more, |adapter.stream|
      {
        var next := AppendFragment(payload, expected);
        if next.Failed? { return Failed(next.error); }
        payload, more := next.value.0, next.value.1;
        expected := expected + 1;
      }
      r := Got(payload);
    }

    /** One more fragment: the longer payload and whether more follow. */
    method AppendFragment(payload: Bytes, expected: nat) returns (r: Received<(Bytes, bool)>)
      modifies adapter
      ensures r.Failed? ==>
        CollectWire(old(adapter.stream), Collecting(payload, expected)) == WireRead(Failed(r.error), adapter.stream)
      ensures r.Got? ==> |adapter.stream| < |old(adapter.stream)|
      ensures r.Got? ==>
        CollectWire(old(adapter.stream), Collecting(payload, expected)) ==
        CollectWire(adapter.stream, if r.value.1 then Collecting(r.value.0, expected + 1) else Done(r.value.0))
    {
      ghost var before := adapter.stream;
      var fragment := adapter.ReceiveFrame();
      CollectStep(before, Collecting(payload, expected), Read(fragment, adapter.stream));
      if fragment.Err? { return Failed(AdapterFailed(fragment.error)); }
      r := CheckFragment(payload, expected, fragment.value);
      if r.Failed? { OverReadsNoMore(adapter.stream, Continue(Collecting(payload, expected), FramePiece(fragment.value))); }
    }

    /** The checks on a fragment, and the payload with it. */
    static method CheckFragment(payload: Bytes, expected: nat, fragment: Frame) returns (r: Received<(Bytes, bool)>)
      ensures var a := Continue(Collecting(payload, expected), FramePiece(fragment));
              && (r.Failed? ==> !a.Collecting? && Outcome(a) == Failed(r.error))
              && (r.Got? ==> a == if r.value.1 then Collecting(r.value.0, expected + 1) else Done(r.value.0))
    {
      var fragIndex := fragment.header.flags / 2;
      var more := fragment.header.flags % 2 == 1;
      if fragIndex != expected { return Failed(FragmentsOutOfOrder); }
      var newLen := |payload| + |fragment.payload|;
      if newLen > MAX_REASSEMBLED_SIZE { return Failed(MessageOversized(newLen)); }
      r := Got((payload + fragment.payload, more));
    }
  }

  lemma {:induction false} OverReadsNoMore(rest: Bytes, a: Assembly)
    requires !a.Collecting?
    ensures CollectWire(rest, a) == WireRead(Outcome(a), rest)
  {
  }

  lemma {:induction false} CollectStep(stream: Bytes, a: Assembly, read: Read<Frame>)
    requires a.Collecting? && read == RecvFrame(stream)
    ensures read.result.Ok? ==> |read.rest| < |stream|
    ensures CollectWire(stream, a) ==
            if read.result.Err? then WireRead(Failed(AdapterFailed(read.result.error)), read.rest)
            else CollectWire(read.rest, Continue(a, FramePiece(read.result.value)))
  {
  }

  /** What the first frame of a message decides. */
  lemma FirstCases(f: Frame)
    ensures First(FramePiece(f)) == if f.header.flags % 2 == 1 then Collecting(f.payload, f.header.flags / 2 + 1) else Done(f.payload)
  {
  }

  lemma {:induction false} DoneReadsNoMore(rest: Bytes, m: Bytes)
    ensures CollectWire(rest, Done(m)) == WireRead(Got(m), rest)
  {
  }

  class MessageSender {
    const secure: SecureSender
    const context: EncryptionContext
    const suite: Suite

    ghost predicate Valid()
      reads context.decryptor
    {
      && context.encryptor as object != secure && context.decryptor as object != secure
      && context.decryptor.replay as object != secure
      && suite.wire == FrameWire()
    }

    constructor (suite: Suite, sendKey: Key, recvKey: Key, policy: RotationPolicy)
      requires suite.wire == FrameWire()
      ensures Valid() && this.suite == suite
      ensures fresh(secure) && secure.written == []
      ensures fresh(context) && fresh(context.encryptor) && fresh(context.decryptor)
      ensures context.Value() == Context(Encryptor(sendKey, 0, 0), Decryptor(recvKey, 0, FRESH), policy)
    {
      secure := new SecureSender();
      context := new EncryptionContext(sendKey, recvKey, 0, policy);
      this.suite := suite;
    }

    /** The abstract pipe this object implements the sending side of. */
    ghost function ThePipe(): Pipe
      reads context
    {
      SecurePipe(suite, context.policy)
    }

    method SendSecureFrame(frame: Frame)
      requires Valid() && Fits(frame.header) && CanSealBoth(context.policy, context.encryptor.Value(), context.decryptor.epoch)
      modifies secure, context.encryptor, context.decryptor
      ensures Valid()
      ensures secure.written == old(secure.written) + ThePipe().send(old(context.encryptor.Value()), frame).0
      ensures context.encryptor.Value() == ThePipe().send(old(context.encryptor.Value()), frame).1
      ensures context.encryptor.Value() == Spent(context.policy, old(context.encryptor.Value()))
      ensures context.decryptor.epoch == DecryptorEpoch(context.policy, old(context.encryptor.Value()), old(context.decryptor.epoch))
    {
      var ef := context.EncryptFrame(suite.aead, frame);
      SealNextIsContextEncrypt(suite.aead, old(context.Value()), frame);
      secure.SendFragments(suite.cbor.encode(ef));
    }

    /** Sends one message, fragmented if it is longer than one frame carries. Room for `spare` frames more is left. */
    method SendFragmented(payload: Bytes, ghost spare: nat)
      requires Valid()
      requires RoomBoth(context.policy, context.encryptor.Value(), context.decryptor.epoch, |Pieces(payload)| + spare)
      modifies secure, context.encryptor, context.decryptor
      ensures Valid()
      ensures secure.written == old(secure.written) + MessageBytes(ThePipe(), old(context.encryptor.Value()), payload).0
      ensures context.encryptor.Value() == MessageBytes(ThePipe(), old(context.encryptor.Value()), payload).1
      ensures RoomBoth(context.policy, context.encryptor.Value(), context.decryptor.epoch, spare)
    {
      PiecesOk(payload);
      ghost var ps := Pieces(payload);
      if |payload| <= FRAGMENT_SIZE {
        SendPiece(Piece(0, payload), ps, spare);
        assert ps[1..] == [];
      } else {
        SendPieces(payload, spare);
      }
    }

    /** Sends the first of the pieces still to go. */
    method SendPiece(p: Piece, ghost ps: seq<Piece>, ghost spare: nat)
      requires Valid() && ps != [] && p == ps[0] && PiecesFit(ps)
      requires RoomBoth(context.policy, context.encryptor.Value(), context.decryptor.epoch, |ps| + spare)
      modifies secure, context.encryptor, context.decryptor
      ensures Valid() && PiecesFit(ps[1..])
      ensures RoomBoth(context.policy, context.encryptor.Value(), context.decryptor.epoch, |ps| - 1 + spare)
      ensures secure.written + PieceBytes(ThePipe(), context.encryptor.Value(), ps[1..]).0
              == old(secure.written) + PieceBytes(ThePipe(), old(context.encryptor.Value()), ps).0
      ensures PieceBytes(ThePipe(), context.encryptor.Value(), ps[1..]).1 == PieceBytes(ThePipe(), old(context.encryptor.Value()), ps).1
    {
      PieceSendable(ps);
      PieceBytesOne(ThePipe(), context.encryptor.Value(), ps, secure.written);
      RoomBothStep(context.policy, context.encryptor.Value(), context.decryptor.epoch, |ps| + spare);
      SendSecureFrame(PieceFrame(p));
    }

    /** Cuts the next piece out of the payload and sends it. */
    method SendFrom(payload: Bytes, offset: nat, index: nat, ghost left: seq<Piece>, ghost spare: nat) returns (end: nat, next: nat)
      requires Valid() && offset < |payload| && left == PiecesFrom(payload, offset, index) && PiecesFit(left)
      requires RoomBoth(context.policy, context.encryptor.Value(), context.decryptor.epoch, |left| + spare)
      modifies secure, context.encryptor, context.decryptor
      ensures Valid() && offset < end <= |payload| && left != [] && left[1..] == PiecesFrom(payload, end, next) && PiecesFit(left[1..])
      ensures RoomBoth(context.policy, context.encryptor.Value(), context.decryptor.epoch, |left| - 1 + spare)
      ensures secure.written + PieceBytes(ThePipe(), context.encryptor.Value(), left[1..]).0
              == old(secure.written) + PieceBytes(ThePipe(), old(context.encryptor.Value()), left).0
      ensures PieceBytes(ThePipe(), context.encryptor.Value(), left[1..]).1 == PieceBytes(ThePipe(), old(context.encryptor.Value()), left).1
    {
      end := if offset + FRAGMENT_SIZE < |payload| then offset + FRAGMENT_SIZE else |payload|;
      next := (index + 1) % U16;
      var more := end < |payload|;
      FirstPieceFrom(payload, offset, index, end);
      SendPiece(Piece(FragmentFlags(index, more), payload[offset..end]), left, spare);
    }

    method SendPieces(payload: Bytes, ghost spare: nat)
      requires Valid() && PiecesFit(PiecesFrom(payload, 0, 0))
      requires RoomBoth(context.policy, context.encryptor.Value(), context.decryptor.epoch, |PiecesFrom(payload, 0, 0)| + spare)
      modifies secure, context.encryptor, context.decryptor
      ensures Valid()
      ensures secure.written
              == old(secure.written) + PieceBytes(ThePipe(), old(context.encryptor.Value()), PiecesFrom(payload, 0, 0)).0
      ensures context.encryptor.Value()
              == PieceBytes(ThePipe(), old(context.encryptor.Value()), PiecesFrom(payload, 0, 0)).1
      ensures RoomBoth(context.policy, context.encryptor.Value(), context.decryptor.epoch, spare)
    {
      var total: nat, index: nat, offset: nat := |payload|, 0, 0;
      ghost var left := PiecesFrom(payload, 0, 0);
      ghost var goal := PieceBytes(ThePipe(), context.encryptor.Value(), left);
      ghost var start := secure.written;
      while offset < total
        invariant offset <= total && Valid()
        invariant left == PiecesFrom(payload, offset, index) && PiecesFit(left)
        invariant RoomBoth(context.policy, context.encryptor.Value(), context.decryptor.epoch, |left| + spare)
        invariant secure.written + PieceBytes(ThePipe(), context.encryptor.Value(), left).0 == start + goal.0
        invariant PieceBytes(ThePipe(), context.encryptor.Value(), left).1 == goal.1
        decreases total - offset
      {
        offset, index := SendFrom(payload, offset, index, left, spare);
        left := left[1..];
      }
      assert left == [];
    }
  }

  lemma {:induction false} PieceBytesOne(pipe: Pipe, e: Encryptor, ps: seq<Piece>, written: Bytes)
    requires ps != [] && PiecesFit(ps)
    ensures var first := pipe.send(e, PieceFrame(ps[0]));
            && written + PieceBytes(pipe, e, ps).0 == written + first.0 + PieceBytes(pipe, first.1, ps[1..]).0
            && PieceBytes(pipe, e, ps).1 == PieceBytes(pipe, first.1, ps[1..]).1
  {
  }

  /** Marks a read whose meaning is wanted. */
  ghost predicate Reading(pipe: Pipe, d: Decryptor, stream: Bytes) {
    true
  }

  class MessageReceiver {
    const secure: SecureReceiver
    const context: EncryptionContext
    const suite: Suite
    /** The abstract pipe this object implements the receiving side of. */
    ghost const pipe: Pipe

    ghost predicate Valid()
      reads context.decryptor
    {
      && secure.adapter as object != context.decryptor
      && secure.adapter as object != context.decryptor.replay
      && suite.wire == FrameWire()
      && (forall d, stream {:trigger Reading(pipe, d, stream)} ::
            Reading(pipe, d, stream) ==> pipe.recv(d, stream) == RecvSecureFrame(suite, d, stream))
    }

    constructor (suite: Suite, sendKey: Key, recvKey: Key, policy: RotationPolicy, stream: Bytes)
      requires suite.wire == FrameWire()
      ensures Valid() && this.suite == suite && pipe == SecurePipe(suite, policy)
      ensures fresh(secure) && fresh(secure.adapter) && secure.adapter.stream == stream
      ensures fresh(context) && fresh(context.decryptor) && fresh(context.decryptor.replay)
      ensures context.Value() == Context(Encryptor(sendKey, 0, 0), Decryptor(recvKey, 0, FRESH), policy)
    {
      secure := new SecureReceiver(stream);
      context := new EncryptionContext(sendKey, recvKey, 0, policy);
      this.suite := suite;
      pipe := SecurePipe(suite, policy);
    }

    method RecvSecure() returns (r: Received<Frame>)
      requires Valid()
      modifies secure.adapter, context.decryptor, context.decryptor.replay
      ensures Valid() && (context.decryptor.replay == old(context.decryptor.replay) || fresh(context.decryptor.replay))
      ensures SecureRead(r, context.decryptor.Value(), secure.adapter.stream)
              == pipe.recv(old(context.decryptor.Value()), old(secure.adapter.stream))
    {
      assert Reading(pipe, context.decryptor.Value(), secure.adapter.stream);
      var wire := secure.ReceiveFragments();
      if wire.Failed? { return Failed(wire.error); }
      if |wire.value| > MAX_REASSEMBLED_SIZE { return Failed(NotDecodable); }
      var decoded := suite.cbor.decode(wire.value);
      if decoded.Undecodable? || !FrameTyped(decoded.ef) { return Failed(NotDecodable); }
      var plain := context.DecryptFrame(suite.aead, decoded.ef);
      if plain.Decrypted? { r := Got(plain.frame); } else { r := Failed(NotDecrypted(plain)); }
    }

    /** Receives one message, reassembling it from as many frames as it takes. */
    method RecvReassembledMessage() returns (r: Received<Bytes>)
      requires Valid() && PipeShrinks(pipe)
      modifies secure.adapter, context.decryptor, context.decryptor.replay
      ensures Valid() && (context.decryptor.replay == old(context.decryptor.replay) || fresh(context.decryptor.replay))
      ensures MessageRead(r, context.decryptor.Value(), secure.adapter.stream)
              == RecvReassembled(pipe, old(context.decryptor.Value()), old(secure.adapter.stream))
    {
      var frame := RecvSecure();
      if frame.Failed? { return Failed(frame.error); }
      var more := frame.value.header.flags % 2 == 1;
      if frame.value.header.flags / 2 == 0 && !more { return Got(frame.value.payload); }
      if !more { return Got(frame.value.payload); }
      r := CollectFrames(frame.value.payload, frame.value.header.flags / 2 + 1);
    }

    method CollectFrames(start: Bytes, next: nat) returns (r: Received<Bytes>)
      requires Valid() && PipeShrinks(pipe)
      modifies secure.adapter, context.decryptor, context.decryptor.replay
      ensures Valid() && (context.decryptor.replay == old(context.decryptor.replay) || fresh(context.decryptor.replay))
      ensures MessageRead(r, context.decryptor.Value(), secure.adapter.stream)
              == CollectMessage(pipe, old(context.decryptor.Value()), old(secure.adapter.stream), Collecting(start, next))
    {
      var payload, expected, more := start, next, true;
      ghost var goal :=
        CollectMessage(pipe, context.decryptor.Value(), secure.adapter.stream, Collecting(start, next));
      while more
        invariant Valid() && (context.decryptor.replay == old(context.decryptor.replay) || fresh(context.decryptor.replay))
        invariant CollectMessage(pipe, context.decryptor.Value(), secure.adapter.stream,
                                 if more then Collecting(payload, expected) else Done(payload)) == goal
        decreases more, |secure.adapter.stream|
      {
        var next := AppendFrame(payload, expected);
        if next.Failed? { return Failed(next.error); }
        payload, more := next.value.0, next.value.1;
        expected := expected + 1;
      }
      r := Got(payload);
    }

    /** One more frame: the longer payload and whether more follow. */
    method AppendFrame(payload: Bytes, expected: nat) returns (r: Received<(Bytes, bool)>)
      requires Valid() && PipeShrinks(pipe)
      modifies secure.adapter, context.decryptor, context.decryptor.replay
      ensures Valid() && (context.decryptor.replay == old(context.decryptor.replay) || fresh(context.decryptor.replay))
      ensures r.Failed? ==>
        CollectMessage(pipe, old(context.decryptor.Value()), old(secure.adapter.stream), Collecting(payload, expected))
        == MessageRead(Failed(r.error), context.decryptor.Value(), secure.adapter.stream)
      ensures r.Got? ==> |secure.adapter.stream| < |old(secure.adapter.stream)|
      ensures r.Got? ==>
        CollectMessage(pipe, old(context.decryptor.Value()), old(secure.adapter.stream), Collecting(payload, expected))
        == CollectMessage(pipe, context.decryptor.Value(), secure.adapter.stream,
                          if r.value.1 then Collecting(r.value.0, expected + 1) else Done(r.value.0))
    {
      ghost var d, stream := context.decryptor.Value(), secure.adapter.stream;
      var fragment := RecvSecure();
      CollectMessageStep(pipe, d, stream, Collecting(payload, expected),
                         SecureRead(fragment, context.decryptor.Value(), secure.adapter.stream));
      if fragment.Failed? { return Failed(fragment.error); }
      var fragIndex := fragment.value.header.flags / 2;
      var more := fragment.value.header.flags % 2 == 1;
      if fragIndex != expected { return Failed(FragmentsOutOfOrder); }
      var newLen := |payload| + |fragment.value.payload|;
      if newLen > MAX_REASSEMBLED_SIZE { return Failed(MessageOversized(newLen)); }
      r := Got((payload + fragment.value.payload, more));
    }
  }

  lemma {:induction false} CollectMessageStep(pipe: Pipe, d: Decryptor, stream: Bytes, a: Assembly, read: SecureRead)
    requires PipeShrinks(pipe) && a.Collecting? && read == pipe.recv(d, stream)
    ensures read.result.Got? ==> |read.rest| < |stream|
    ensures CollectMessage(pipe, d, stream, a) ==
            if read.result.Failed? then MessageRead(Failed(read.result.error), read.decryptor, read.rest)
            else CollectMessage(pipe, read.decryptor, read.rest, Continue(a, FramePiece(read.result.value)))
  {
  }

  /** Sends a sequence of messages. */
  method SendAll(sender: MessageSender, ms: seq<Bytes>)
    requires sender.Valid()
    requires RoomBoth(sender.context.policy, sender.context.encryptor.Value(), sender.context.decryptor.epoch, FrameCount(ms))
    modifies sender.secure, sender.context.encryptor, sender.context.decryptor
    ensures sender.secure.written
            == old(sender.secure.written) + ConversationBytes(sender.ThePipe(), old(sender.context.encryptor.Value()), ms)
  {
    ghost var goal := sender.secure.written + ConversationBytes(sender.ThePipe(), sender.context.encryptor.Value(), ms);
    assert ms[0..] == ms;
    for k := 0 to |ms|
      invariant sender.Valid()
      invariant RoomBoth(sender.context.policy, sender.context.encryptor.Value(), sender.context.decryptor.epoch,
                         FrameCount(ms[k..]))
      invariant sender.secure.written
                + ConversationBytes(sender.ThePipe(), sender.context.encryptor.Value(), ms[k..]) == goal
    {
      assert ms[k..][0] == ms[k] && ms[k..][1..] == ms[k + 1..];
      NextMessage(sender.ThePipe(), sender.context.encryptor.Value(), ms[k..], sender.secure.written);
      sender.SendFragmented(ms[k], FrameCount(ms[k + 1..]));
    }
    assert ms[|ms|..] == [];
  }

  lemma {:induction false} NextMessage(pipe: Pipe, e: Encryptor, ms: seq<Bytes>, written: Bytes)
    requires ms != []
    ensures var first := MessageBytes(pipe, e, ms[0]);
            written + ConversationBytes(pipe, e, ms) == written + first.0 + ConversationBytes(pipe, first.1, ms[1..])
  {
  }

  lemma {:induction false} RoomForNext(pipe: Pipe, e: Encryptor, ms: seq<Bytes>)
    requires ms != [] && PipeSpends(pipe) && Room(pipe.policy, e, FrameCount(ms))
    ensures Room(pipe.policy, MessageBytes(pipe, e, ms[0]).1, FrameCount(ms[1..])) && Room(pipe.policy, e, |Pieces(ms[0])|)
  {
    PiecesOk(ms[0]);
    RoomForFewer(pipe.policy, e, FrameCount(ms), |Pieces(ms[0])|);
    RoomAfterPieces(pipe, e, Pieces(ms[0]), FrameCount(ms[1..]));
  }

  /** The first message of what remains is received, and leaves the rest. */
  lemma {:induction false} FirstIsReceived(pipe: Pipe, e: Encryptor, d: Decryptor, ms: seq<Bytes>, k: nat)
    requires GoodPipe(pipe) && k < |ms| && |ms[k]| <= MAX_REASSEMBLED_SIZE
    requires Room(pipe.policy, e, FrameCount(ms[k..])) && InSync(e, d)
    ensures var r := RecvReassembled(pipe, d, ConversationBytes(pipe, e, ms[k..]));
            var e' := MessageBytes(pipe, e, ms[k]).1;
            && r.result == Got(ms[k]) && r.rest == ConversationBytes(pipe, e', ms[k + 1..])
            && InSync(e', r.decryptor) && Room(pipe.policy, e', FrameCount(ms[k + 1..]))
  {
    assert ms[k..][0] == ms[k] && ms[k..][1..] == ms[k + 1..];
    NextMessage(pipe, e, ms[k..], []);
    RoomForNext(pipe, e, ms[k..]);
    var first := MessageBytes(pipe, e, ms[k]);
    var tail := ConversationBytes(pipe, first.1, ms[k + 1..]);
    assert ConversationBytes(pipe, e, ms[k..]) == first.0 + tail;
    MessageRoundTrip(pipe, e, d, ms[k], tail);
  }


  /** Receives as many messages as were sent. */
  method ReceiveAll(receiver: MessageReceiver, ghost e: Encryptor, ghost ms: seq<Bytes>, count: nat)
    returns (received: seq<Bytes>)
    requires receiver.Valid() && GoodPipe(receiver.pipe) && count == |ms|
    requires Room(receiver.pipe.policy, e, FrameCount(ms)) && InSync(e, receiver.context.decryptor.Value())
    requires receiver.secure.adapter.stream == ConversationBytes(receiver.pipe, e, ms)
    requires forall k :: 0 <= k < |ms| ==> |ms[k]| <= MAX_REASSEMBLED_SIZE
    modifies receiver.secure.adapter, receiver.context.decryptor, receiver.context.decryptor.replay
    ensures received == ms && receiver.secure.adapter.stream == []
  {
    received := [];
    ghost var enc := e;
    assert ms[0..] == ms;
    for k := 0 to count
      invariant receiver.Valid() && received == ms[..k]
      invariant receiver.context.decryptor.replay == old(receiver.context.decryptor.replay)
                || fresh(receiver.context.decryptor.replay)
      invariant Room(receiver.pipe.policy, enc, FrameCount(ms[k..])) && InSync(enc, receiver.context.decryptor.Value())
      invariant receiver.secure.adapter.stream == ConversationBytes(receiver.pipe, enc, ms[k..])
    {
      FirstIsReceived(receiver.pipe, enc, receiver.context.decryptor.Value(), ms, k);
      var r := receiver.RecvReassembledMessage();
      received := received + [r.value];
      enc := MessageBytes(receiver.pipe, enc, ms[k]).1;
    }
    assert ms[count..] == [] && ms[..count] == ms;
  }

  /** The whole path through the objects: what one end sends, the other end receives. */
  method Exchange(suite: Suite, policy: RotationPolicy, sendKey: Key, otherKey: Key, ms: seq<Bytes>)
    returns (received: seq<Bytes>)
    requires suite.wire == FrameWire() && Faithful(suite) && Compact(suite)
    requires TypedPolicy(policy) && Affords(policy, 0, 0, FrameCount(ms))
    requires forall k :: 0 <= k < |ms| ==> |ms[k]| <= MAX_REASSEMBLED_SIZE
    ensures received == ms
  {
    FrameWireDelivers();
    SecurePipeIsGood(suite, policy);
    RoomExactly(policy, Encryptor(sendKey, 0, 0), FrameCount(ms));
    RoomIsForBoth(policy, Encryptor(sendKey, 0, 0), 0, FrameCount(ms));
    var sender := new MessageSender(suite, sendKey, otherKey, policy);
    SendAll(sender, ms);
    var receiver := new MessageReceiver(suite, otherKey, sendKey, policy, sender.secure.written);
    received := ReceiveAll(receiver, Encryptor(sendKey, 0, 0), ms, |ms|);
  }
}
