/** Splitting a message into numbered pieces and putting them together again. The session layer uses this
    scheme twice: for application messages inside encrypted frames, and for encrypted frames on the wire.
 */
module Fragments {
  import opened Words

  const FRAGMENT_SIZE: nat := 60_000
  const MAX_REASSEMBLED_SIZE: nat := 4 * 1024 * 1024

  /** Bit 0: more pieces follow; bits 1 to 15: index. Shifted in 16 bits. */
  function FragmentFlags(index: nat, more: bool): nat {
    (2 * index) % U16 + if more then 1 else 0
  }

  datatype Piece = Piece(flags: nat, chunk: Bytes)

  function PiecesFrom(message: Bytes, offset: nat, index: nat): (ps: seq<Piece>)
    requires offset <= |message|
    decreases |message| - offset
  {
    if offset == |message| then []
    else
      var end := if offset + FRAGMENT_SIZE < |message| then offset + FRAGMENT_SIZE else |message|;
      [Piece(FragmentFlags(index, end < |message|), message[offset..end])] +
      PiecesFrom(message, end, (index + 1) % U16)
  }

  function Pieces(message: Bytes): seq<Piece> {
    if |message| <= FRAGMENT_SIZE then [Piece(0, message)] else PiecesFrom(message, 0, 0)
  }

  ghost predicate PieceOk(p: Piece) {
    p.flags < U16 && |p.chunk| <= FRAGMENT_SIZE
  }

  lemma {:induction false} PiecesFromOk(message: Bytes, offset: nat, index: nat)
    requires offset <= |message|
    ensures forall k :: 0 <= k < |PiecesFrom(message, offset, index)| ==> PieceOk(PiecesFrom(message, offset, index)[k])
    ensures |PiecesFrom(message, offset, index)| <= |message| - offset
    decreases |message| - offset
  {
    if offset < |message| {
      var end := if offset + FRAGMENT_SIZE < |message| then offset + FRAGMENT_SIZE else |message|;
      PiecesFromOk(message, end, (index + 1) % U16);
    }
  }

  lemma PiecesOk(message: Bytes)
    ensures Pieces(message) != []
    ensures forall k :: 0 <= k < |Pieces(message)| ==> PieceOk(Pieces(message)[k])
  {
    if |message| > FRAGMENT_SIZE { PiecesFromOk(message, 0, 0); }
  }

  // ---------- Reassembly ----------

  datatype Assembly =
    | Collecting(payload: Bytes, expected: nat)
    | Done(message: Bytes)
    | OutOfOrder
    | Oversized(size: nat)

  function First(p: Piece): Assembly {
    if p.flags % 2 == 1 then Collecting(p.chunk, p.flags / 2 + 1) else Done(p.chunk)
  }

  function Continue(a: Assembly, p: Piece): Assembly
    requires a.Collecting?
  {
    if p.flags / 2 != a.expected then OutOfOrder
    else if |a.payload| + |p.chunk| > MAX_REASSEMBLED_SIZE then Oversized(|a.payload| + |p.chunk|)
    else if p.flags % 2 == 1 then Collecting(a.payload + p.chunk, a.expected + 1)
    else Done(a.payload + p.chunk)
  }

  /** Where reassembly stands after as many pieces as it takes, and the pieces it did not look at. */
  datatype Fed = Fed(assembly: Assembly, rest: seq<Piece>)

  function Feed(a: Assembly, pieces: seq<Piece>): Fed
    decreases |pieces|
  {
    if pieces == [] || !a.Collecting? then Fed(a, pieces) else Feed(Continue(a, pieces[0]), pieces[1..])
  }

  function Reassemble(pieces: seq<Piece>): Fed
    requires pieces != []
  {
    Feed(First(pieces[0]), pieces[1..])
  }

  lemma FlagsRoundTrip(index: nat, more: bool)
    requires index < 0x8000
    ensures FragmentFlags(index, more) / 2 == index && (FragmentFlags(index, more) % 2 == 1 <==> more)
  {
  }

  /** The middle of a transfer: `offset` bytes are in, and the rest of the pieces finish the message or
      run into the size limit. */
  lemma {:induction false} FeedRest(message: Bytes, offset: nat, index: nat)
    requires 0 < offset == index * FRAGMENT_SIZE < |message| && offset <= MAX_REASSEMBLED_SIZE
    ensures var fed := Feed(Collecting(message[..offset], index), PiecesFrom(message, offset, index));
            if |message| <= MAX_REASSEMBLED_SIZE then fed == Fed(Done(message), [])
            else fed.assembly.Oversized? && fed.assembly.size > MAX_REASSEMBLED_SIZE
    decreases |message| - offset
  {
    var end := if offset + FRAGMENT_SIZE < |message| then offset + FRAGMENT_SIZE else |message|;
    var ps := PiecesFrom(message, offset, index);
    var a := Collecting(message[..offset], index);
    FlagsRoundTrip(index, end < |message|);
    assert ps[0] == Piece(FragmentFlags(index, end < |message|), message[offset..end]);
    assert ps[1..] == PiecesFrom(message, end, index + 1);
    assert message[..offset] + message[offset..end] == message[..end];
    if end <= MAX_REASSEMBLED_SIZE {
      if end < |message| {
        assert Continue(a, ps[0]) == Collecting(message[..end], index + 1);
        FeedRest(message, end, index + 1);
      } else {
        assert message[..end] == message;
        assert Continue(a, ps[0]) == Done(message);
      }
    } else {
      assert Continue(a, ps[0]) == Oversized(end);
    }
  }

  /** Main result: for every message, reassembling its pieces gives the message back, using them all,
      exactly when it is at most 4 MiB; a longer one is refused as oversized. */
  lemma ReassembleExactly(message: Bytes)
    ensures Pieces(message) != []
    ensures var fed := Reassemble(Pieces(message));
            if |message| <= MAX_REASSEMBLED_SIZE then fed == Fed(Done(message), [])
            else fed.assembly.Oversized? && fed.assembly.size > MAX_REASSEMBLED_SIZE
  {
    if |message| > FRAGMENT_SIZE {
      var ps := PiecesFrom(message, 0, 0);
      FlagsRoundTrip(0, true);
      assert ps[0] == Piece(FragmentFlags(0, true), message[0..FRAGMENT_SIZE]);
      assert ps[1..] == PiecesFrom(message, FRAGMENT_SIZE, 1);
      assert message[0..FRAGMENT_SIZE] == message[..FRAGMENT_SIZE];
      FeedRest(message, FRAGMENT_SIZE, 1);
    }
  }

  // ---------- Any pieces at all ----------

  function Joined(pieces: seq<Piece>): Bytes {
    if pieces == [] then [] else pieces[0].chunk + Joined(pieces[1..])
  }

  /** The first `n` pieces follow one another from `index`, the last of them and no other says that none follows, and with
      `had` bytes before them they never exceed the limit. */
  predicate Chain(pieces: seq<Piece>, n: nat, index: nat, had: nat)
    decreases n
  {
    && 0 < n <= |pieces| && pieces[0].flags / 2 == index && had + |pieces[0].chunk| <= MAX_REASSEMBLED_SIZE
    && if n == 1 then pieces[0].flags % 2 == 0
       else pieces[0].flags % 2 == 1 && Chain(pieces[1..], n - 1, index + 1, had + |pieces[0].chunk|)
  }

  lemma {:induction false} FedExactly(a: Assembly, pieces: seq<Piece>, n: nat, message: Bytes)
    requires a.Collecting? && n <= |pieces|
    ensures Feed(a, pieces) == Fed(Done(message), pieces[n..]) <==>
              Chain(pieces, n, a.expected, |a.payload|) && message == a.payload + Joined(pieces[..n])
    decreases |pieces|
  {
    if pieces != [] {
      var next := Continue(a, pieces[0]);
      if next.Collecting? && n > 0 {
        FedExactly(next, pieces[1..], n - 1, message);
        assert pieces[1..][n - 1..] == pieces[n..];
        assert pieces[..n][1..] == pieces[1..][..n - 1];
        assert a.payload + (pieces[0].chunk + Joined(pieces[..n][1..])) == next.payload + Joined(pieces[1..][..n - 1]);
      } else if next.Collecting? {
        FeedShrinks(next, pieces[1..]);
      } else {
        assert Feed(a, pieces) == Fed(next, pieces[1..]);
        if n == 1 { OneJoined(pieces); }
      }
    }
  }

  lemma OneJoined(pieces: seq<Piece>)
    requires pieces != []
    ensures Joined(pieces[..1]) == pieces[0].chunk
  {
    assert pieces[..1][1..] == [];
    assert Joined(pieces[..1]) == pieces[0].chunk + [];
  }

  lemma {:induction false} FeedShrinks(a: Assembly, pieces: seq<Piece>)
    ensures |Feed(a, pieces).rest| <= |pieces|
    decreases |pieces|
  {
    if pieces != [] && a.Collecting? { FeedShrinks(Continue(a, pieces[0]), pieces[1..]); }
  }

  /** Main result: whatever pieces come, a message is put together from the first `n` of them exactly when that is the
      single first piece, or they follow one another from the first one's number, only the last says that none follows,
      and no later one takes them over 4 MiB. */
  lemma {:induction false} PutTogetherExactly(pieces: seq<Piece>, n: nat, message: Bytes)
    requires 0 < n <= |pieces|
    ensures Reassemble(pieces) == Fed(Done(message), pieces[n..]) <==>
              && message == Joined(pieces[..n])
              && if n == 1 then pieces[0].flags % 2 == 0
                 else pieces[0].flags % 2 == 1 && Chain(pieces[1..], n - 1, pieces[0].flags / 2 + 1, |pieces[0].chunk|)
  {
    OneJoined(pieces);
    if pieces[0].flags % 2 == 1 {
      FedExactly(First(pieces[0]), pieces[1..], n - 1, message);
      assert pieces[1..][n - 1..] == pieces[n..] && pieces[..n][1..] == pieces[1..][..n - 1];
    } else {
      assert Reassemble(pieces) == Fed(Done(pieces[0].chunk), pieces[1..]);
    }
  }
}
