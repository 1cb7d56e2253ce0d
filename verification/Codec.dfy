/** The 32-byte packet header, the frame codec, and reading frames off a byte stream. Multi-byte header
    fields are laid out as on a little-endian host, as the zero-copy cast of the header does there.
 */
module Codec {
  import opened Words

  const HEADER_SIZE: nat := 32
  const PROTOCOL_MAGIC: Bytes := [0x42, 0x57, 0x50, 0x47]
  const CURRENT_MAJOR: nat := 1
  /** Major 1, minor 0, packed. */
  const CURRENT_VERSION: nat := 0x0100

  // ---------- Fixed-width integers ----------

  function Pow256(n: nat): (p: nat)
    ensures p >= 1
  {
    if n == 0 then 1 else 256 * Pow256(n - 1)
  }

  /** The `n` low bytes of `v`, least significant first. */
  function LittleEndian(v: nat, n: nat): (bs: Bytes)
    ensures |bs| == n
    decreases n
  {
    if n == 0 then [] else [v % 256] + LittleEndian(v / 256, n - 1)
  }

  function FromLittleEndian(bs: Bytes): (v: nat)
    ensures v < Pow256(|bs|)
  {
    if bs == [] then 0 else bs[0] + 256 * FromLittleEndian(bs[1..])
  }

  lemma {:induction false} LittleEndianRoundTrip(v: nat, n: nat)
    requires v < Pow256(n)
    ensures FromLittleEndian(LittleEndian(v, n)) == v
    decreases n
  {
    if n > 0 {
      LittleEndianRoundTrip(v / 256, n - 1);
      assert LittleEndian(v, n)[1..] == LittleEndian(v / 256, n - 1);
    }
  }

  lemma {:induction false} FromLittleEndianRoundTrip(bs: Bytes)
    ensures LittleEndian(FromLittleEndian(bs), |bs|) == bs
  {
    if bs != [] {
      FromLittleEndianRoundTrip(bs[1..]);
      var v := FromLittleEndian(bs);
      assert v % 256 == bs[0] && v / 256 == FromLittleEndian(bs[1..]);
      assert bs == [bs[0]] + bs[1..];
    }
  }

  /** Most significant byte first. */
  function BigEndian(v: nat, n: nat): (bs: Bytes)
    ensures |bs| == n
    decreases n
  {
    if n == 0 then [] else BigEndian(v / 256, n - 1) + [v % 256]
  }

  function FromBigEndian(bs: Bytes): (v: nat)
    ensures v < Pow256(|bs|)
  {
    if bs == [] then 0 else 256 * FromBigEndian(bs[..|bs| - 1]) + bs[|bs| - 1]
  }

  lemma {:induction false} BigEndianRoundTrip(v: nat, n: nat)
    requires v < Pow256(n)
    ensures FromBigEndian(BigEndian(v, n)) == v
    decreases n
  {
    if n > 0 {
      BigEndianRoundTrip(v / 256, n - 1);
      assert BigEndian(v, n)[..n - 1] == BigEndian(v / 256, n - 1);
    }
  }

  lemma WidthValues()
    ensures Pow256(2) == U16 && Pow256(4) == U32 && Pow256(8) == U64
  {
  }

  // ---------- A record of fixed-width fields ----------

  ghost predicate FieldsFit(values: seq<nat>, widths: seq<nat>) {
    |values| == |widths| && forall k :: 0 <= k < |values| ==> values[k] < Pow256(widths[k])
  }

  function TotalWidth(widths: seq<nat>): nat {
    if widths == [] then 0 else widths[0] + TotalWidth(widths[1..])
  }

  function WriteFields(values: seq<nat>, widths: seq<nat>): (bs: Bytes)
    requires |values| == |widths|
    ensures |bs| == TotalWidth(widths)
  {
    if values == [] then [] else LittleEndian(values[0], widths[0]) + WriteFields(values[1..], widths[1..])
  }

  function ReadFields(bs: Bytes, widths: seq<nat>): (values: seq<nat>)
    requires |bs| == TotalWidth(widths)
    ensures FieldsFit(values, widths)
    decreases |widths|
  {
    if widths == [] then []
    else [FromLittleEndian(bs[..widths[0]])] + ReadFields(bs[widths[0]..], widths[1..])
  }

  lemma {:induction false} FieldsRoundTrip(values: seq<nat>, widths: seq<nat>)
    requires FieldsFit(values, widths)
    ensures ReadFields(WriteFields(values, widths), widths) == values
    decreases |widths|
  {
    if values != [] {
      var first, more := LittleEndian(values[0], widths[0]), WriteFields(values[1..], widths[1..]);
      assert (first + more)[..widths[0]] == first && (first + more)[widths[0]..] == more;
      LittleEndianRoundTrip(values[0], widths[0]);
      FieldsRoundTrip(values[1..], widths[1..]);
      assert values == [values[0]] + values[1..];
    }
  }

  lemma {:induction false} FieldsReadBack(bs: Bytes, widths: seq<nat>)
    requires |bs| == TotalWidth(widths)
    ensures WriteFields(ReadFields(bs, widths), widths) == bs
    decreases |widths|
  {
    if widths != [] {
      FromLittleEndianRoundTrip(bs[..widths[0]]);
      FieldsReadBack(bs[widths[0]..], widths[1..]);
      var values := ReadFields(bs, widths);
      assert values[1..] == ReadFields(bs[widths[0]..], widths[1..]);
      assert bs == bs[..widths[0]] + bs[widths[0]..];
    }
  }

  // ---------- Header ----------

  datatype Header = Header(
    magic: Bytes, schemaVersion: nat, flags: nat, packetType: nat, payloadLength: nat,
    sequenceNumber: nat, sessionEpoch: nat, monotonicTimestamp: nat)

  /** The widths of the fields that follow the magic. */
  function Widths(): (w: seq<nat>)
    ensures |w| == 7 && TotalWidth(w) == HEADER_SIZE - 4
  {
    TotalOfSeven(2, 2, 2, 2, 4, 8, 8);
    [2, 2, 2, 2, 4, 8, 8]
  }

  lemma TotalOfSeven(a: nat, b: nat, c: nat, d: nat, e: nat, f: nat, g: nat)
    ensures TotalWidth([a, b, c, d, e, f, g]) == a + b + c + d + e + f + g
  {
    assert [g][1..] == [] && TotalWidth([g]) == g;
    assert [f, g][1..] == [g] && TotalWidth([f, g]) == f + g;
    assert [e, f, g][1..] == [f, g] && TotalWidth([e, f, g]) == e + f + g;
    assert [d, e, f, g][1..] == [e, f, g] && TotalWidth([d, e, f, g]) == d + e + f + g;
    assert [c, d, e, f, g][1..] == [d, e, f, g] && TotalWidth([c, d, e, f, g]) == c + d + e + f + g;
    assert [b, c, d, e, f, g][1..] == [c, d, e, f, g] && TotalWidth([b, c, d, e, f, g]) == b + c + d + e + f + g;
    assert [a, b, c, d, e, f, g][1..] == [b, c, d, e, f, g];
  }

  /** The field values the types of the source can hold. */
  predicate Fits(h: Header) {
    && |h.magic| == 4
    && h.schemaVersion < U16 && h.flags < U16 && h.packetType < U16 && h.payloadLength < U16
    && h.sequenceNumber < U32 && h.sessionEpoch < U64 && h.monotonicTimestamp < U64
  }

  function Fields(h: Header): (f: seq<nat>)
    ensures |f| == 7
  {
    [h.schemaVersion, h.flags, h.packetType, h.payloadLength, h.sequenceNumber, h.sessionEpoch, h.monotonicTimestamp]
  }

  lemma FitsMeansFieldsFit(h: Header)
    ensures Fits(h) <==> |h.magic| == 4 && FieldsFit(Fields(h), Widths())
  {
    WidthValues();
    var f, w := Fields(h), Widths();
    if FieldsFit(f, w) {
      assert f[0] < Pow256(w[0]) && f[1] < Pow256(w[1]) && f[2] < Pow256(w[2]) && f[3] < Pow256(w[3]);
      assert f[4] < Pow256(w[4]) && f[5] < Pow256(w[5]) && f[6] < Pow256(w[6]);
    }
  }

  function HeaderBytes(h: Header): (bs: Bytes)
    requires Fits(h)
    ensures |bs| == HEADER_SIZE
  {
    h.magic + WriteFields(Fields(h), Widths())
  }

  function ReadHeader(bs: Bytes): Header
    requires |bs| == HEADER_SIZE
  {
    var f := ReadFields(bs[4..], Widths());
    Header(bs[..4], f[0], f[1], f[2], f[3], f[4], f[5], f[6])
  }

  lemma HeaderRoundTrip(h: Header)
    requires Fits(h)
    ensures ReadHeader(HeaderBytes(h)) == h
  {
    FitsMeansFieldsFit(h);
    FieldsRoundTrip(Fields(h), Widths());
    var bs := HeaderBytes(h);
    assert bs[..4] == h.magic && bs[4..] == WriteFields(Fields(h), Widths());
  }

  lemma HeaderReadBack(bs: Bytes)
    requires |bs| == HEADER_SIZE
    ensures Fits(ReadHeader(bs)) && HeaderBytes(ReadHeader(bs)) == bs
  {
    var h := ReadHeader(bs);
    assert Fields(h) == ReadFields(bs[4..], Widths());
    FitsMeansFieldsFit(h);
    FieldsReadBack(bs[4..], Widths());
    assert bs == bs[..4] + bs[4..];
  }

  datatype Error =
    | BufferTooSmall
    | InvalidMagic
    | InvalidVersion(version: nat)
    | InvalidPayloadLength
    | Closed

  datatype Result<+T> = Ok(value: T) | Err(error: Error)

  predicate Compatible(version: nat) {
    version / 256 == CURRENT_MAJOR
  }

  /** Magic first, then the major version. */
  function Validate(h: Header): Result<Header> {
    if h.magic != PROTOCOL_MAGIC then Err(InvalidMagic)
    else if !Compatible(h.schemaVersion) then Err(InvalidVersion(h.schemaVersion))
    else Ok(h)
  }

  function TryFromBytes(bs: Bytes): Result<Header> {
    if |bs| < HEADER_SIZE then Err(BufferTooSmall) else Validate(ReadHeader(bs[..HEADER_SIZE]))
  }

  // ---------- Frames ----------

  datatype Frame = Frame(header: Header, payload: Bytes)

  function EncodeFrame(f: Frame): Bytes
    requires Fits(f.header)
  {
    HeaderBytes(f.header) + f.payload
  }

  function DecodeFrame(bs: Bytes): Result<Frame> {
    if |bs| < HEADER_SIZE then Err(BufferTooSmall)
    else match TryFromBytes(bs)
         case Err(e) => Err(e)
         case Ok(h) =>
           var expected := HEADER_SIZE + h.payloadLength;
           if |bs| < expected then Err(BufferTooSmall)
           else if |bs| > expected then Err(InvalidPayloadLength)
           else Ok(Frame(h, bs[HEADER_SIZE..expected]))
  }

  /** A frame whose header the receiver accepts and whose length field is right. */
  predicate WellFormed(f: Frame) {
    Fits(f.header) && Validate(f.header).Ok? && f.header.payloadLength == |f.payload|
  }

  /** Decoding undoes encoding exactly for well-formed frames. */
  lemma DecodeUndoesEncode(f: Frame)
    requires Fits(f.header)
    ensures WellFormed(f) ==> DecodeFrame(EncodeFrame(f)) == Ok(f)
    ensures !WellFormed(f) ==> DecodeFrame(EncodeFrame(f)).Err?
  {
    HeaderRoundTrip(f.header);
    var head := HeaderBytes(f.header);
    var bs := head + f.payload;
    assert bs[..HEADER_SIZE] == head && bs[HEADER_SIZE..|bs|] == f.payload;
  }

  /** Whatever decodes is well-formed and encodes back to the same bytes. */
  lemma EncodeUndoesDecode(bs: Bytes)
    requires DecodeFrame(bs).Ok?
    ensures WellFormed(DecodeFrame(bs).value) && EncodeFrame(DecodeFrame(bs).value) == bs
  {
    HeaderReadBack(bs[..HEADER_SIZE]);
    assert bs == bs[..HEADER_SIZE] + bs[HEADER_SIZE..];
  }

  // ---------- By the bytes ----------

  function Word(bs: Bytes, at: nat): nat
    requires at + 2 <= |bs|
  {
    bs[at] as nat + 256 * bs[at + 1] as nat
  }

  lemma {:induction false} TwoBytes(bs: Bytes)
    requires |bs| == 2
    ensures FromLittleEndian(bs) == Word(bs, 0)
  {
    assert bs[1..][1..] == [] && FromLittleEndian(bs[1..]) == bs[1];
  }

  /** The first `n` fields of two bytes each, one after the other. */
  lemma {:induction false} WordsRead(bs: Bytes, widths: seq<nat>, n: nat)
    requires |bs| == TotalWidth(widths) && n <= |widths| && 2 * n <= |bs| && forall k :: 0 <= k < n ==> widths[k] == 2
    ensures forall k :: 0 <= k < n ==> ReadFields(bs, widths)[k] == Word(bs, 2 * k)
    decreases n
  {
    if n > 0 {
      WordsRead(bs[2..], widths[1..], n - 1);
      TwoBytes(bs[..2]);
      var values, rest := ReadFields(bs, widths), ReadFields(bs[2..], widths[1..]);
      assert values == [FromLittleEndian(bs[..2])] + rest;
      forall k | 0 <= k < n ensures values[k] == Word(bs, 2 * k) {
        if k > 0 { assert rest[k - 1] == Word(bs[2..], 2 * (k - 1)); }
      }
    }
  }

  lemma {:induction false} HeaderWords(bs: Bytes)
    requires |bs| == HEADER_SIZE
    ensures var h := ReadHeader(bs);
            && h.magic == bs[..4] && h.schemaVersion == Word(bs, 4) && h.flags == Word(bs, 6)
            && h.packetType == Word(bs, 8) && h.payloadLength == Word(bs, 10)
  {
    var tail := bs[4..];
    WordsRead(tail, Widths(), 4);
    var f := ReadFields(tail, Widths());
    assert f[0] == Word(tail, 0) && f[1] == Word(tail, 2) && f[2] == Word(tail, 4) && f[3] == Word(tail, 6);
  }

  /** The header at the front announces the version this side speaks, under the right magic. */
  predicate Announced(bs: Bytes) {
    |bs| >= HEADER_SIZE && bs[..4] == [0x42, 0x57, 0x50, 0x47] && bs[5] == 1
  }

  /** Which bytes decode, and to what: flags, type and payload are where they stand. */
  lemma {:induction false} DecodeExactly(bs: Bytes)
    ensures DecodeFrame(bs).Ok? <==> Announced(bs) && |bs| == HEADER_SIZE + Word(bs, 10)
    ensures DecodeFrame(bs).Ok? ==>
              var f := DecodeFrame(bs).value;
              && f.payload == bs[HEADER_SIZE..] && f.header.flags == Word(bs, 6) && f.header.packetType == Word(bs, 8)
  {
    if |bs| >= HEADER_SIZE {
      var head := bs[..HEADER_SIZE];
      HeaderWords(head);
      assert head[..4] == bs[..4];
      assert Word(bs, 4) / 256 == bs[5];
    }
  }

  // ---------- Reading from a stream ----------

  /** The result of a read and the bytes still on the stream. */
  datatype Read<+T> = Read(result: Result<T>, rest: Bytes)

  /** Header first, then as many payload bytes as it announces. A stream that ends early is closed. */
  function RecvFrame(stream: Bytes): (r: Read<Frame>)
    ensures |r.rest| <= |stream| && (r.result.Ok? ==> |r.rest| < |stream|)
  {
    if |stream| < HEADER_SIZE then Read(Err(Closed), [])
    else
      var rest := stream[HEADER_SIZE..];
      match TryFromBytes(stream[..HEADER_SIZE])
      case Err(e) => Read(Err(e), rest)
      case Ok(h) =>
        if |rest| < h.payloadLength then Read(Err(Closed), [])
        else
          var buffer := stream[..HEADER_SIZE] + rest[..h.payloadLength];
          Read(DecodeFrame(buffer), rest[h.payloadLength..])
  }

  /** A well-formed frame is read back, and the reader is left exactly at what followed it. */
  lemma RecvWhatWasSent(f: Frame, rest: Bytes)
    requires WellFormed(f)
    ensures RecvFrame(EncodeFrame(f) + rest) == Read(Ok(f), rest)
  {
    var head := HeaderBytes(f.header);
    var stream := head + f.payload + rest;
    assert stream[..HEADER_SIZE] == head && stream[HEADER_SIZE..] == f.payload + rest;
    assert (f.payload + rest)[..|f.payload|] == f.payload && (f.payload + rest)[|f.payload|..] == rest;
    assert head[..HEADER_SIZE] == head;
    HeaderRoundTrip(f.header);
    DecodeUndoesEncode(f);
  }

  /** Which streams begin with a frame, and what is left of them. */
  lemma {:induction false} RecvExactly(stream: Bytes)
    ensures RecvFrame(stream).result.Ok? <==> Announced(stream) && |stream| >= HEADER_SIZE + Word(stream, 10)
    ensures RecvFrame(stream).result.Ok? ==>
              var n := HEADER_SIZE + Word(stream, 10);
              RecvFrame(stream) == Read(DecodeFrame(stream[..n]), stream[n..])
  {
    if |stream| >= HEADER_SIZE {
      var head, rest := stream[..HEADER_SIZE], stream[HEADER_SIZE..];
      HeaderWords(head);
      assert head[..HEADER_SIZE] == head && head[..4] == stream[..4];
      assert Word(stream, 4) / 256 == stream[5];
      var n := Word(stream, 10);
      if |rest| >= n {
        var whole := stream[..HEADER_SIZE + n];
        assert head + rest[..n] == whole && rest[n..] == stream[HEADER_SIZE + n..];
        DecodeExactly(whole);
        assert whole[..4] == stream[..4];
      }
    }
  }

  /** The reader as an object: it consumes the stream and fills the caller's buffer in two reads. */
  class QuicRecvAdapter {
    var stream: Bytes

    constructor (stream: Bytes)
      ensures this.stream == stream
    {
      this.stream := stream;
    }

    /** `read_exact`: all `n` bytes, or the stream is finished and drained. */
    method ReadExact(n: nat) returns (r: Result<Bytes>)
      modifies this
      ensures |old(stream)| < n ==> r == Err(Closed) && stream == []
      ensures |old(stream)| >= n ==> r == Ok(old(stream)[..n]) && stream == old(stream)[n..]
    {
      if |stream| < n {
        stream := [];
        return Err(Closed);
      }
      r := Ok(stream[..n]);
      stream := stream[n..];
    }

    method ReceiveFrame() returns (r: Result<Frame>)
      modifies this
      ensures Read(r, stream) == RecvFrame(old(stream))
    {
      var head := ReadExact(HEADER_SIZE);
      if head.Err? { return Err(head.error); }
      var header := TryFromBytes(head.value);
      if header.Err? { return Err(header.error); }
      var buffer := head.value;
      if header.value.payloadLength > 0 {
        var body := ReadExact(header.value.payloadLength);
        if body.Err? { return Err(body.error); }
        buffer := buffer + body.value;
      } else {
        assert buffer + old(stream)[HEADER_SIZE..][..0] == buffer;
      }
      r := DecodeFrame(buffer);
    }
  }
}
