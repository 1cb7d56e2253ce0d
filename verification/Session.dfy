/** The message channel end to end, in one direction, over a byte stream: message fragmentation, frame
    encryption with in-band key rotation, wire fragmentation, and frame parsing.

    The cipher and the CBOR encoder are parameters. Of them it is assumed that opening undoes sealing,
    that decoding undoes encoding, and that an encrypted message frame encodes to at most 4 MiB.
 */
module Session {
  import opened Words
  import opened ReplayWindow
  import opened Codec
  import opened Encryption
  import opened Fragments

  const PACKET_TYPE_MESSAGE: nat := 2

  datatype Deserialized = Undecodable | Encoded(ef: EncryptedFrame)

  datatype Cbor = Cbor(encode: EncryptedFrame -> Bytes, decode: Bytes -> Deserialized)

  /** Below the encryption layer: a way to put one message on a stream and to read one back. */
  datatype Wire = Wire(send: Bytes -> Bytes, recv: Bytes -> WireRead)

  /** What is sent is read back, and the reader is left exactly at what followed it. */
  ghost predicate WireDelivers(wire: Wire) {
    forall m, rest :: |m| <= MAX_REASSEMBLED_SIZE ==> wire.recv(wire.send(m) + rest) == WireRead(Got(m), rest)
  }

  ghost predicate WireShrinks(wire: Wire) {
    forall stream :: var r := wire.recv(stream); |r.rest| <= |stream| && (r.result.Got? ==> |r.rest| < |stream|)
  }

  datatype Suite = Suite(aead: Aead, cbor: Cbor, wire: Wire)

  ghost predicate Faithful(s: Suite) {
    && Inverts(s.aead)
    && WireDelivers(s.wire)
    && (forall ef :: FrameTyped(ef) ==> s.cbor.decode(s.cbor.encode(ef)) == Encoded(ef))
  }

  /** Message frames carry at most 60000 bytes; with the header that is 60032 bytes of plaintext. */
  ghost predicate Compact(s: Suite) {
    forall k, n, p, e: nat :: |p| <= HEADER_SIZE + FRAGMENT_SIZE && |n| == 12 && e < U32 ==>
      |s.cbor.encode(EncryptedFrame(e, n, s.aead.seal(k, n, p)))| <= MAX_REASSEMBLED_SIZE
  }

  // ---------- Wire layer ----------

  /** A frame of the message packet type carrying one piece. */
  function PieceFrame(p: Piece): Frame {
    Frame(Header(PROTOCOL_MAGIC, CURRENT_VERSION, p.flags, PACKET_TYPE_MESSAGE, |p.chunk| % U16, 0, 0, 0), p.chunk)
  }

  function FramePiece(f: Frame): Piece {
    Piece(f.header.flags, f.payload)
  }

  lemma PieceFrameWellFormed(p: Piece)
    requires PieceOk(p)
    ensures WellFormed(PieceFrame(p)) && FramePiece(PieceFrame(p)) == p
  {
  }

  /** On the wire a piece is 32 bytes of header, with the magic, the version, its flags, the packet type and its length
      where every reader looks for them, and then the piece. */
  lemma {:induction false} PieceOnTheWire(p: Piece)
    requires PieceOk(p)
    ensures Fits(PieceFrame(p).header)
    ensures var bs := EncodeFrame(PieceFrame(p));
            && |bs| == 32 + |p.chunk| && bs[32..] == p.chunk && bs[..4] == [0x42, 0x57, 0x50, 0x47] && bs[5] == 1
            && Word(bs, 6) == p.flags && Word(bs, 8) == 2 && Word(bs, 10) == |p.chunk|
  {
    PieceFrameWellFormed(p);
    DecodeUndoesEncode(PieceFrame(p));
    DecodeExactly(EncodeFrame(PieceFrame(p)));
  }

  ghost predicate PiecesFit(ps: seq<Piece>) {
    forall k :: 0 <= k < |ps| ==> PieceOk(ps[k])
  }

  lemma PieceFrameFits(p: Piece)
    requires PieceOk(p)
    ensures Fits(PieceFrame(p).header)
  {
  }

  ghost function WireBytes(ps: seq<Piece>): Bytes
    requires PiecesFit(ps)
  {
    if ps == [] then []
    else
      PieceFrameFits(ps[0]);
      EncodeFrame(PieceFrame(ps[0])) + WireBytes(ps[1..])
  }

  datatype SessionError =
    | AdapterFailed(error: Error)
    | FragmentsOutOfOrder
    | MessageOversized(size: nat)
    | NotDecodable
    | NotDecrypted(why: DecryptResult)

  datatype Received<+T> = Got(value: T) | Failed(error: SessionError)

  datatype WireRead = WireRead(result: Received<Bytes>, rest: Bytes)

  function Outcome(a: Assembly): Received<Bytes>
    requires !a.Collecting?
  {
    match a
    case Done(m) => Got(m)
    case OutOfOrder => Failed(FragmentsOutOfOrder)
    case Oversized(n) => Failed(MessageOversized(n))
  }

  /** Reads wire frames until the assembly is complete. */
  function CollectWire(stream: Bytes, a: Assembly): (r: WireRead)
    ensures |r.rest| <= |stream|
    decreases |stream|
  {
    if !a.Collecting? then WireRead(Outcome(a), stream)
    else
      var read := RecvFrame(stream);
      if read.result.Err? then WireRead(Failed(AdapterFailed(read.result.error)), read.rest)
      else CollectWire(read.rest, Continue(a, FramePiece(read.result.value)))
  }

  function RecvFragments(stream: Bytes): (r: WireRead)
    ensures |r.rest| <= |stream| && (r.result.Got? ==> |r.rest| < |stream|)
  {
    var read := RecvFrame(stream);
    if read.result.Err? then WireRead(Failed(AdapterFailed(read.result.error)), read.rest)
    else CollectWire(read.rest, First(FramePiece(read.result.value)))
  }

  /** Reading pieces off the wire is feeding them to the assembly. */
  lemma {:induction false} CollectFeeds(a: Assembly, ps: seq<Piece>, rest: Bytes)
    requires PiecesFit(ps) && Feed(a, ps).rest == [] && !Feed(a, ps).assembly.Collecting?
    ensures CollectWire(WireBytes(ps) + rest, a) == WireRead(Outcome(Feed(a, ps).assembly), rest)
    decreases |ps|
  {
    if ps == [] || !a.Collecting? {
      assert WireBytes(ps) + rest == rest;
    } else {
      var tail := WireBytes(ps[1..]) + rest;
      PieceFrameWellFormed(ps[0]);
      assert WireBytes(ps) + rest == EncodeFrame(PieceFrame(ps[0])) + tail;
      RecvWhatWasSent(PieceFrame(ps[0]), tail);
      CollectFeeds(Continue(a, ps[0]), ps[1..], rest);
    }
  }

  ghost function WireMessage(m: Bytes): Bytes {
    PiecesOk(m);
    WireBytes(Pieces(m))
  }

  /** A message of at most 4 MiB put on the wire is read back whole, and nothing after it is touched. */
  lemma WireRoundTrip(m: Bytes, rest: Bytes)
    requires |m| <= MAX_REASSEMBLED_SIZE
    ensures RecvFragments(WireMessage(m) + rest) == WireRead(Got(m), rest)
  {
    PiecesOk(m);
    ReassembleExactly(m);
    PiecesOffTheWire(Pieces(m), m, rest);
  }

  lemma {:induction false} PiecesOffTheWire(ps: seq<Piece>, m: Bytes, rest: Bytes)
    requires PiecesFit(ps) && ps != [] && Reassemble(ps) == Fed(Done(m), [])
    ensures RecvFragments(WireBytes(ps) + rest) == WireRead(Got(m), rest)
  {
    FirstOffTheWire(ps, rest);
    CollectFeeds(First(ps[0]), ps[1..], rest);
  }

  lemma {:induction false} FirstOffTheWire(ps: seq<Piece>, rest: Bytes)
    requires PiecesFit(ps) && ps != []
    ensures RecvFragments(WireBytes(ps) + rest) == CollectWire(WireBytes(ps[1..]) + rest, First(ps[0]))
  {
    var tail := WireBytes(ps[1..]) + rest;
    PieceFrameWellFormed(ps[0]);
    assert WireBytes(ps) + rest == EncodeFrame(PieceFrame(ps[0])) + tail;
    RecvWhatWasSent(PieceFrame(ps[0]), tail);
    RecvFragmentsGoesOn(WireBytes(ps) + rest, PieceFrame(ps[0]), tail);
  }

  lemma {:induction false} RecvFragmentsGoesOn(stream: Bytes, f: Frame, tail: Bytes)
    requires RecvFrame(stream) == Read(Ok(f), tail)
    ensures RecvFragments(stream) == CollectWire(tail, First(FramePiece(f)))
  {
  }

  // ---------- Encryption layer ----------

  /** The sending half of a context: encrypt, then rotate if the policy says so. */
  function SealNext(aead: Aead, policy: RotationPolicy, e: Encryptor, f: Frame): (EncryptedFrame, Encryptor)
    requires Fits(f.header) && CanEncrypt(e)
  {
    var (ef, e') := EncryptOne(aead, e, f);
    (ef, if Due(policy, e'.counter) then RotateEncryptor(e') else e')
  }

  lemma SealNextIsContextEncrypt(aead: Aead, c: Context, f: Frame)
    requires Fits(f.header) && CanEncrypt(c.encryptor)
    ensures SealNext(aead, c.policy, c.encryptor, f)
            == (ContextEncrypt(aead, c, f).0, ContextEncrypt(aead, c, f).1.encryptor)
  {
  }

  /** The receiver can take the sender's next frame: same epoch with a newer counter, or the first frame
      of the next epoch. */
  ghost predicate InSync(e: Encryptor, d: Decryptor) {
    || (&& e.epoch == d.epoch && e.key == d.key
        && (d.window.max < e.counter || (e.counter == 0 && d.window == FRESH)))
    || (e.epoch == d.epoch + 1 && e.counter == 0 && e.key == Derived(d.key, e.epoch))
  }

  lemma DecryptsSameEpoch(aead: Aead, d: Decryptor, ef: EncryptedFrame, f: Frame, plain: Bytes)
    requires FrameTyped(ef) && ef.epoch == d.epoch && Admit(d.window, NonceCounter(ef.nonce)).accepted
    requires aead.open(d.key, ef.nonce, ef.sealed) == Plain(plain) && Parsed(plain) == Decrypted(f)
    ensures DecryptOne(aead, d, ef)
            == (Decrypted(f), d.(window := Admit(d.window, NonceCounter(ef.nonce)).next))
  {
  }

  lemma DecryptsNextEpoch(aead: Aead, d: Decryptor, ef: EncryptedFrame, f: Frame, plain: Bytes)
    requires FrameTyped(ef) && ef.epoch == d.epoch + 1 && Admit(FRESH, NonceCounter(ef.nonce)).accepted
    requires aead.open(Derived(d.key, ef.epoch), ef.nonce, ef.sealed) == Plain(plain) && Parsed(plain) == Decrypted(f)
    ensures DecryptOne(aead, d, ef)
            == (Decrypted(f), Decryptor(Derived(d.key, ef.epoch), ef.epoch, Admit(FRESH, NonceCounter(ef.nonce)).next))
  {
  }

  /** A counter ahead of the window, or 0 in a fresh one, is admitted and becomes the newest. */
  lemma AdmitsAhead(w: Window, counter: nat)
    requires w.max < counter || (counter == 0 && w == FRESH)
    ensures Admit(w, counter).accepted && Admit(w, counter).next.max == counter
  {
  }

  lemma {:induction false} SealedOpens(aead: Aead, policy: RotationPolicy, e: Encryptor, f: Frame)
    requires Inverts(aead) && WellFormed(f) && Room(policy, e, 1)
    ensures var ef := SealNext(aead, policy, e, f).0;
            && FrameTyped(ef) && ef.epoch == e.epoch && NonceCounter(ef.nonce) == e.counter
            && aead.open(e.key, ef.nonce, ef.sealed) == Plain(EncodeFrame(f))
            && Parsed(EncodeFrame(f)) == Decrypted(f)
  {
    NonceRoundTrip(e.epoch, e.counter);
    DecodeUndoesEncode(f);
  }

  lemma {:induction false} InSyncAfter(aead: Aead, policy: RotationPolicy, e: Encryptor, f: Frame, d: Decryptor)
    requires WellFormed(f) && Room(policy, e, 1)
    requires d.epoch == e.epoch && d.key == e.key && d.window.max == e.counter
    ensures InSync(SealNext(aead, policy, e, f).1, d)
  {
  }

  /** The next frame is decrypted to what was encrypted, whatever rotation follows it, and the two ends
      stay in step. */
  lemma {:induction false} NextFrameDecrypts(aead: Aead, policy: RotationPolicy, e: Encryptor, d: Decryptor, f: Frame)
    requires Inverts(aead) && WellFormed(f) && Room(policy, e, 1) && InSync(e, d)
    ensures var ef := SealNext(aead, policy, e, f).0;
            && FrameTyped(ef)
            && DecryptOne(aead, d, ef).0 == Decrypted(f)
            && InSync(SealNext(aead, policy, e, f).1, DecryptOne(aead, d, ef).1)
  {
    SealedOpens(aead, policy, e, f);
    var ef := SealNext(aead, policy, e, f).0;
    if e.epoch == d.epoch {
      AdmitsAhead(d.window, e.counter);
      DecryptsSameEpoch(aead, d, ef, f, EncodeFrame(f));
    } else {
      AdmitsAhead(FRESH, e.counter);
      DecryptsNextEpoch(aead, d, ef, f, EncodeFrame(f));
    }
    InSyncAfter(aead, policy, e, f, DecryptOne(aead, d, ef).1);
  }

  lemma {:induction false} RoomAfter(aead: Aead, policy: RotationPolicy, e: Encryptor, f: Frame, n: nat)
    requires Fits(f.header) && Room(policy, e, n + 1)
    ensures Room(policy, SealNext(aead, policy, e, f).1, n)
  {
  }

  datatype SecureRead = SecureRead(result: Received<Frame>, decryptor: Decryptor, rest: Bytes)

  /** Reassemble off the wire, decode (at most 4 MiB, and to the fixed field widths), decrypt. */
  function RecvSecureFrame(s: Suite, d: Decryptor, stream: Bytes): SecureRead {
    var wire := s.wire.recv(stream);
    if wire.result.Failed? then SecureRead(Failed(wire.result.error), d, wire.rest)
    else if |wire.result.value| > MAX_REASSEMBLED_SIZE then SecureRead(Failed(NotDecodable), d, wire.rest)
    else match s.cbor.decode(wire.result.value)
         case Undecodable => SecureRead(Failed(NotDecodable), d, wire.rest)
         case Encoded(ef) =>
           if !FrameTyped(ef) then SecureRead(Failed(NotDecodable), d, wire.rest)
           else
             var (r, d') := DecryptOne(s.aead, d, ef);
             if r.Decrypted? then SecureRead(Got(r.frame), d', wire.rest)
             else SecureRead(Failed(NotDecrypted(r)), d', wire.rest)
  }

  /** The bytes that carry one encrypted frame, and the sender afterwards. A sender whose counter or epoch
      is used up sends nothing. */
  function SecureBytes(s: Suite, policy: RotationPolicy, e: Encryptor, f: Frame): (Bytes, Encryptor) {
    if Fits(f.header) && CanEncrypt(e) then
      var (ef, e') := SealNext(s.aead, policy, e, f);
      (s.wire.send(s.cbor.encode(ef)), e')
    else ([], e)
  }

  lemma {:induction false} SealedIsCompact(s: Suite, policy: RotationPolicy, e: Encryptor, f: Frame)
    requires Compact(s) && WellFormed(f) && |f.payload| <= FRAGMENT_SIZE && Room(policy, e, 1)
    ensures |s.cbor.encode(SealNext(s.aead, policy, e, f).0)| <= MAX_REASSEMBLED_SIZE
  {
    var n, p := NonceOf(e.epoch, e.counter), EncodeFrame(f);
    assert |p| <= HEADER_SIZE + FRAGMENT_SIZE;
  }

  lemma {:induction false} SecureRoundTrip(s: Suite, policy: RotationPolicy, e: Encryptor, d: Decryptor, f: Frame, rest: Bytes)
    requires Faithful(s) && Compact(s) && WellFormed(f) && |f.payload| <= FRAGMENT_SIZE
    requires Room(policy, e, 1) && InSync(e, d)
    ensures var read := RecvSecureFrame(s, d, SecureBytes(s, policy, e, f).0 + rest);
            && read.result == Got(f) && read.rest == rest
            && InSync(SecureBytes(s, policy, e, f).1, read.decryptor)
  {
    var ef := SealNext(s.aead, policy, e, f).0;
    NextFrameDecrypts(s.aead, policy, e, d, f);
    SealedIsCompact(s, policy, e, f);
    ReadsBack(s, d, ef, f, rest);
  }

  lemma ReadsBack(s: Suite, d: Decryptor, ef: EncryptedFrame, f: Frame, rest: Bytes)
    requires Faithful(s) && FrameTyped(ef) && |s.cbor.encode(ef)| <= MAX_REASSEMBLED_SIZE
    requires DecryptOne(s.aead, d, ef).0 == Decrypted(f)
    ensures RecvSecureFrame(s, d, s.wire.send(s.cbor.encode(ef)) + rest)
            == SecureRead(Got(f), DecryptOne(s.aead, d, ef).1, rest)
  {
    assert s.wire.recv(s.wire.send(s.cbor.encode(ef)) + rest) == WireRead(Got(s.cbor.encode(ef)), rest);
  }

  // ---------- Message layer ----------

  /** Below the message layer: a way to send one frame and to receive one. */
  datatype Pipe = Pipe(policy: RotationPolicy, send: (Encryptor, Frame) -> (Bytes, Encryptor), recv: (Decryptor, Bytes) -> SecureRead)

  function SecurePipe(s: Suite, policy: RotationPolicy): Pipe {
    Pipe(policy, (e, f) => SecureBytes(s, policy, e, f), (d, stream) => RecvSecureFrame(s, d, stream))
  }

  ghost predicate Sendable(f: Frame) {
    WellFormed(f) && |f.payload| <= FRAGMENT_SIZE
  }

  ghost predicate PipeDelivers(pipe: Pipe) {
    forall e, d, f, rest :: Sendable(f) && Room(pipe.policy, e, 1) && InSync(e, d) ==>
      var read := pipe.recv(d, pipe.send(e, f).0 + rest);
      read.result == Got(f) && read.rest == rest && InSync(pipe.send(e, f).1, read.decryptor)
  }

  ghost predicate PipeSpends(pipe: Pipe) {
    forall e, f, n: nat {:trigger Room(pipe.policy, pipe.send(e, f).1, n)} ::
      Sendable(f) && Room(pipe.policy, e, n + 1) ==> Room(pipe.policy, pipe.send(e, f).1, n)
  }

  ghost predicate PipeShrinks(pipe: Pipe) {
    forall d, stream :: var r := pipe.recv(d, stream); |r.rest| <= |stream| && (r.result.Got? ==> |r.rest| < |stream|)
  }

  ghost predicate GoodPipe(pipe: Pipe) {
    PipeDelivers(pipe) && PipeSpends(pipe) && PipeShrinks(pipe)
  }

  lemma SecurePipeIsGood(s: Suite, policy: RotationPolicy)
    requires Faithful(s) && Compact(s) && WireShrinks(s.wire)
    ensures GoodPipe(SecurePipe(s, policy))
  {
    var pipe := SecurePipe(s, policy);
    forall e, d, f, rest | Sendable(f) && Room(pipe.policy, e, 1) && InSync(e, d)
      ensures var read := pipe.recv(d, pipe.send(e, f).0 + rest);
              read.result == Got(f) && read.rest == rest && InSync(pipe.send(e, f).1, read.decryptor)
    {
      SecureRoundTrip(s, policy, e, d, f, rest);
    }
    forall e, f, n: nat | Sendable(f) && Room(pipe.policy, e, n + 1) ensures Room(pipe.policy, pipe.send(e, f).1, n) {
      RoomAfter(s.aead, policy, e, f, n);
    }
    forall d, stream
      ensures var r := pipe.recv(d, stream); |r.rest| <= |stream| && (r.result.Got? ==> |r.rest| < |stream|)
    {
      SecureShrinks(s, d, stream);
    }
  }

  lemma SecureShrinks(s: Suite, d: Decryptor, stream: Bytes)
    requires WireShrinks(s.wire)
    ensures var r := RecvSecureFrame(s, d, stream); |r.rest| <= |stream| && (r.result.Got? ==> |r.rest| < |stream|)
  {
    var wire := s.wire.recv(stream);
    assert |wire.rest| <= |stream| && (wire.result.Got? ==> |wire.rest| < |stream|);
  }

  /** Sends pieces of a message, one frame each. */
  function PieceBytes(pipe: Pipe, e: Encryptor, ps: seq<Piece>): (Bytes, Encryptor)
    decreases |ps|
  {
    if ps == [] then ([], e)
    else
      var first := pipe.send(e, PieceFrame(ps[0]));
      var more := PieceBytes(pipe, first.1, ps[1..]);
      (first.0 + more.0, more.1)
  }

  datatype MessageRead = MessageRead(result: Received<Bytes>, decryptor: Decryptor, rest: Bytes)

  ghost function CollectMessage(pipe: Pipe, d: Decryptor, stream: Bytes, a: Assembly): MessageRead
    requires PipeShrinks(pipe)
    decreases |stream|
  {
    if !a.Collecting? then MessageRead(Outcome(a), d, stream)
    else
      var read := pipe.recv(d, stream);
      if read.result.Failed? then MessageRead(Failed(read.result.error), read.decryptor, read.rest)
      else CollectMessage(pipe, read.decryptor, read.rest, Continue(a, FramePiece(read.result.value)))
  }

  ghost function RecvReassembled(pipe: Pipe, d: Decryptor, stream: Bytes): MessageRead
    requires PipeShrinks(pipe)
  {
    var read := pipe.recv(d, stream);
    if read.result.Failed? then MessageRead(Failed(read.result.error), read.decryptor, read.rest)
    else CollectMessage(pipe, read.decryptor, read.rest, First(FramePiece(read.result.value)))
  }

  lemma PieceSendable(ps: seq<Piece>)
    requires PiecesFit(ps) && ps != []
    ensures Sendable(PieceFrame(ps[0])) && FramePiece(PieceFrame(ps[0])) == ps[0] && PiecesFit(ps[1..])
  {
    PieceFrameWellFormed(ps[0]);
  }

  /** One piece on, the reader stands at the rest of the pieces and the two ends are still in step. */
  lemma {:induction false} OnePiece(pipe: Pipe, e: Encryptor, d: Decryptor, ps: seq<Piece>, rest: Bytes)
    requires GoodPipe(pipe) && PiecesFit(ps) && ps != [] && Room(pipe.policy, e, |ps|) && InSync(e, d)
    ensures var e' := pipe.send(e, PieceFrame(ps[0])).1;
            var read := pipe.recv(d, PieceBytes(pipe, e, ps).0 + rest);
            && Room(pipe.policy, e', |ps| - 1)
            && read.result == Got(PieceFrame(ps[0]))
            && read.rest == PieceBytes(pipe, e', ps[1..]).0 + rest
            && InSync(e', read.decryptor)
  {
    PieceSendable(ps);
    var first := pipe.send(e, PieceFrame(ps[0]));
    var tail := PieceBytes(pipe, first.1, ps[1..]).0 + rest;
    assert PieceBytes(pipe, e, ps).0 + rest == first.0 + tail by {
      AppendAssoc(first.0, PieceBytes(pipe, first.1, ps[1..]).0, rest);
    }
    SendOne(pipe, e, d, PieceFrame(ps[0]), |ps| - 1, tail);
  }

  lemma AppendAssoc(a: Bytes, b: Bytes, c: Bytes)
    ensures a + b + c == a + (b + c)
  {
  }

  lemma {:induction false} SendOne(pipe: Pipe, e: Encryptor, d: Decryptor, f: Frame, n: nat, rest: Bytes)
    requires GoodPipe(pipe) && Sendable(f) && Room(pipe.policy, e, n + 1) && InSync(e, d)
    ensures Room(pipe.policy, pipe.send(e, f).1, n)
    ensures var read := pipe.recv(d, pipe.send(e, f).0 + rest);
            read.result == Got(f) && read.rest == rest && InSync(pipe.send(e, f).1, read.decryptor)
  {
    assert Room(pipe.policy, e, 1);
  }

  lemma {:induction false} CollectMessageFeeds(pipe: Pipe, e: Encryptor, d: Decryptor, a: Assembly, ps: seq<Piece>, rest: Bytes)
    requires GoodPipe(pipe) && PiecesFit(ps) && Room(pipe.policy, e, |ps|) && InSync(e, d)
    requires Feed(a, ps).rest == [] && !Feed(a, ps).assembly.Collecting?
    ensures var r := CollectMessage(pipe, d, PieceBytes(pipe, e, ps).0 + rest, a);
            && r.result == Outcome(Feed(a, ps).assembly) && r.rest == rest
            && InSync(PieceBytes(pipe, e, ps).1, r.decryptor)
    decreases |ps|
  {
    if ps == [] || !a.Collecting? {
      assert PieceBytes(pipe, e, ps).0 + rest == rest;
    } else {
      OnePiece(pipe, e, d, ps, rest);
      PieceSendable(ps);
      var e' := pipe.send(e, PieceFrame(ps[0])).1;
      var read := pipe.recv(d, PieceBytes(pipe, e, ps).0 + rest);
      CollectMessageFeeds(pipe, e', read.decryptor, Continue(a, ps[0]), ps[1..], rest);
    }
  }

  /** What `send_fragmented` puts on the stream for one message. */
  function MessageBytes(pipe: Pipe, e: Encryptor, m: Bytes): (Bytes, Encryptor) {
    PieceBytes(pipe, e, Pieces(m))
  }

  /** One message, end to end. */
  lemma {:induction false} MessageRoundTrip(pipe: Pipe, e: Encryptor, d: Decryptor, m: Bytes, rest: Bytes)
    requires GoodPipe(pipe) && Room(pipe.policy, e, |Pieces(m)|) && InSync(e, d) && |m| <= MAX_REASSEMBLED_SIZE
    ensures var r := RecvReassembled(pipe, d, MessageBytes(pipe, e, m).0 + rest);
            r.result == Got(m) && r.rest == rest && InSync(MessageBytes(pipe, e, m).1, r.decryptor)
  {
    PiecesOk(m);
    ReassembleExactly(m);
    PiecesRoundTrip(pipe, e, d, Pieces(m), m, rest);
  }

  lemma {:induction false} PiecesRoundTrip(pipe: Pipe, e: Encryptor, d: Decryptor, ps: seq<Piece>, m: Bytes, rest: Bytes)
    requires GoodPipe(pipe) && PiecesFit(ps) && ps != [] && Room(pipe.policy, e, |ps|) && InSync(e, d)
    requires Reassemble(ps) == Fed(Done(m), [])
    ensures var r := RecvReassembled(pipe, d, PieceBytes(pipe, e, ps).0 + rest);
            r.result == Got(m) && r.rest == rest && InSync(PieceBytes(pipe, e, ps).1, r.decryptor)
  {
    OnePiece(pipe, e, d, ps, rest);
    PieceSendable(ps);
    var e' := pipe.send(e, PieceFrame(ps[0])).1;
    var read := pipe.recv(d, PieceBytes(pipe, e, ps).0 + rest);
    CollectMessageFeeds(pipe, e', read.decryptor, First(ps[0]), ps[1..], rest);
  }

  // ---------- Whole conversations ----------

  function FrameCount(ms: seq<Bytes>): nat {
    if ms == [] then 0 else |Pieces(ms[0])| + FrameCount(ms[1..])
  }

  lemma {:induction false} RoomAfterPieces(pipe: Pipe, e: Encryptor, ps: seq<Piece>, n: nat)
    requires PipeSpends(pipe) && PiecesFit(ps) && Room(pipe.policy, e, |ps| + n)
    ensures Room(pipe.policy, PieceBytes(pipe, e, ps).1, n)
    decreases |ps|
  {
    if ps != [] {
      PieceSendable(ps);
      var e' := pipe.send(e, PieceFrame(ps[0])).1;
      assert Room(pipe.policy, e, (|ps| - 1 + n) + 1);
      assert Room(pipe.policy, e', |ps| - 1 + n);
      RoomAfterPieces(pipe, e', ps[1..], n);
    }
  }

  /** Everything `send_fragmented` puts on the stream for a sequence of messages. */
  function ConversationBytes(pipe: Pipe, e: Encryptor, ms: seq<Bytes>): Bytes
    decreases |ms|
  {
    if ms == [] then []
    else
      var first := MessageBytes(pipe, e, ms[0]);
      first.0 + ConversationBytes(pipe, first.1, ms[1..])
  }

  /** What `n` calls of `recv_reassembled` return, up to the first failure. */
  ghost function RecvMany(pipe: Pipe, d: Decryptor, stream: Bytes, n: nat): seq<Bytes>
    requires PipeShrinks(pipe)
    decreases n
  {
    if n == 0 then []
    else
      var r := RecvReassembled(pipe, d, stream);
      if r.result.Failed? then [] else [r.result.value] + RecvMany(pipe, r.decryptor, r.rest, n - 1)
  }

  lemma {:induction false} ConversationInSync(pipe: Pipe, e: Encryptor, d: Decryptor, ms: seq<Bytes>, rest: Bytes)
    requires GoodPipe(pipe) && Room(pipe.policy, e, FrameCount(ms)) && InSync(e, d)
    requires forall k :: 0 <= k < |ms| ==> |ms[k]| <= MAX_REASSEMBLED_SIZE
    ensures RecvMany(pipe, d, ConversationBytes(pipe, e, ms) + rest, |ms|) == ms
    decreases |ms|
  {
    if ms != [] {
      var first := MessageBytes(pipe, e, ms[0]);
      var tail := ConversationBytes(pipe, first.1, ms[1..]) + rest;
      assert ConversationBytes(pipe, e, ms) + rest == first.0 + tail;
      MessageInSync(pipe, e, d, ms[0], FrameCount(ms[1..]), tail);
      var r := RecvReassembled(pipe, d, first.0 + tail);
      ConversationInSync(pipe, first.1, r.decryptor, ms[1..], rest);
      RecvManyStep(pipe, d, first.0 + tail, |ms|);
      assert ms == [ms[0]] + ms[1..];
    }
  }

  lemma {:induction false} RecvManyStep(pipe: Pipe, d: Decryptor, stream: Bytes, n: nat)
    requires PipeShrinks(pipe) && n > 0 && RecvReassembled(pipe, d, stream).result.Got?
    ensures var r := RecvReassembled(pipe, d, stream);
            RecvMany(pipe, d, stream, n) == [r.result.value] + RecvMany(pipe, r.decryptor, r.rest, n - 1)
  {
  }

  lemma {:induction false} MessageInSync(pipe: Pipe, e: Encryptor, d: Decryptor, m: Bytes, n: nat, rest: Bytes)
    requires GoodPipe(pipe) && Room(pipe.policy, e, |Pieces(m)| + n) && InSync(e, d) && |m| <= MAX_REASSEMBLED_SIZE
    ensures var sent := MessageBytes(pipe, e, m);
            var r := RecvReassembled(pipe, d, sent.0 + rest);
            r.result == Got(m) && r.rest == rest && InSync(sent.1, r.decryptor) && Room(pipe.policy, sent.1, n)
  {
    RoomForFewer(pipe.policy, e, |Pieces(m)| + n, |Pieces(m)|);
    MessageRoundTrip(pipe, e, d, m, rest);
    PiecesOk(m);
    RoomAfterPieces(pipe, e, Pieces(m), n);
  }

  /** The wire as the session layer has it: fragments in frames on a byte stream. */
  ghost function FrameWire(): Wire {
    Wire(m => WireMessage(m), stream => RecvFragments(stream))
  }

  lemma FrameWireDelivers()
    ensures WireDelivers(FrameWire()) && WireShrinks(FrameWire())
  {
    var wire := FrameWire();
    forall m, rest | |m| <= MAX_REASSEMBLED_SIZE ensures wire.recv(wire.send(m) + rest) == WireRead(Got(m), rest) {
      WireRoundTrip(m, rest);
    }
  }

  /** Main result: over a byte stream, for any rotation policy, the messages received are exactly the
      messages sent, in order, through both fragmentation layers, encryption and key rotation, for as many
      frames as the policy has epochs and counters for. */
  lemma {:induction false} ChannelDeliversEveryMessage(s: Suite, policy: RotationPolicy, key: Key, ms: seq<Bytes>)
    requires s.wire == FrameWire() && Faithful(s) && Compact(s)
    requires TypedPolicy(policy) && Affords(policy, 0, 0, FrameCount(ms))
    requires forall k :: 0 <= k < |ms| ==> |ms[k]| <= MAX_REASSEMBLED_SIZE
    ensures GoodPipe(SecurePipe(s, policy))
    ensures var pipe := SecurePipe(s, policy);
            RecvMany(pipe, Decryptor(key, 0, FRESH), ConversationBytes(pipe, Encryptor(key, 0, 0), ms), |ms|) == ms
  {
    FrameWireDelivers();
    SecurePipeIsGood(s, policy);
    var pipe := SecurePipe(s, policy);
    var e := Encryptor(key, 0, 0);
    RoomExactly(policy, e, FrameCount(ms));
    ConversationInSync(pipe, e, Decryptor(key, 0, FRESH), ms, []);
    assert ConversationBytes(pipe, e, ms) + [] == ConversationBytes(pipe, e, ms);
  }
}
