/** The video encode pipeline: the H.264 backend's keyframe bookkeeping and the encode loop. The codec library
    is idealised: a fresh or forced encoder emits an IDR picture, any other call emits a picture predicted from
    the last one encoded (or an IDR of its own accord), and a failed call leaves the encoder as it was.
 */
module Pipeline {
  import opened Words
  import opened ColorConvert

  // ---------- Finding IDR units in a byte stream ----------

  const IDR_UNIT: nat := 5

  predicate IdrAt(p: Bytes, i: nat)
    requires i + 4 < |p|
  {
    if p[i] == 0 && p[i + 1] == 0 && p[i + 2] == 0 && p[i + 3] == 1 then p[i + 4] % 32 == IDR_UNIT
    else p[i] == 0 && p[i + 1] == 0 && p[i + 2] == 1 && p[i + 3] % 32 == IDR_UNIT
  }

  ghost predicate HasIdr(p: Bytes) {
    exists i: nat :: i + 4 < |p| && IdrAt(p, i)
  }

  method DetectIdr(payload: Bytes) returns (found: bool)
    ensures found <==> HasIdr(payload)
  {
    var i := 0;
    while i < SaturatingSub(|payload|, 4)
      invariant i <= SaturatingSub(|payload|, 4)
      invariant forall k: nat :: k < i ==> !IdrAt(payload, k)
    {
      if payload[i] == 0 && payload[i + 1] == 0 && payload[i + 2] == 0 && payload[i + 3] == 1 {
        if payload[i + 4] % 32 == IDR_UNIT {
          assert IdrAt(payload, i);
          return true;
        }
      } else if payload[i] == 0 && payload[i + 1] == 0 && payload[i + 2] == 1 {
        if payload[i + 3] % 32 == IDR_UNIT {
          assert IdrAt(payload, i);
          return true;
        }
      }
      i := i + 1;
    }
    return false;
  }

  /** A unit and whether it is written behind a four-byte or a three-byte start code. */
  datatype Unit = Unit(long: bool, bytes: Bytes)

  /** As an encoder writes it: with no start code inside, and never empty; behind a short code more than a header. */
  predicate WellFormed(u: Unit) {
    && |u.bytes| >= (if u.long then 1 else 2)
    && forall j :: 0 <= j < |u.bytes| - 2 ==> !(u.bytes[j] == 0 && u.bytes[j + 1] == 0 && u.bytes[j + 2] == 1)
  }

  function Code(u: Unit): Bytes {
    if u.long then [0, 0, 0, 1] else [0, 0, 1]
  }

  function WriteUnits(units: seq<Unit>): Bytes {
    if units == [] then [] else Code(units[0]) + units[0].bytes + WriteUnits(units[1..])
  }

  predicate IsIdr(u: Unit) {
    u.bytes != [] && u.bytes[0] % 32 == IDR_UNIT
  }

  predicate AnyIdr(units: seq<Unit>) {
    if units == [] then false else IsIdr(units[0]) || AnyIdr(units[1..])
  }

  /** What follows a unit: nothing, or two zeros and then the rest of a start code and the next header. */
  predicate Follows(rest: Bytes, idr: bool) {
    rest != [] ==>
      && |rest| >= 5 && rest[0] == 0 && rest[1] == 0
      && (if rest[2] == 1 then rest[3] % 32 == IDR_UNIT else rest[2] == 0 && rest[3] == 1 && rest[4] % 32 == IDR_UNIT) == idr
  }

  lemma {:induction false} WriteStarts(units: seq<Unit>)
    requires units != [] ==> WellFormed(units[0])
    ensures Follows(WriteUnits(units), units != [] && IsIdr(units[0]))
  {
    if units != [] {
      var u, p := units[0], WriteUnits(units);
      assert p == Code(u) + (u.bytes + WriteUnits(units[1..]));
      assert p[|Code(u)|] == u.bytes[0];
    }
  }

  /** Nothing inside a unit matches, save that its last zero may lengthen the short code behind it. */
  lemma InsideIsClean(u: Unit, rest: Bytes, idr: bool, i: nat)
    requires WellFormed(u) && Follows(rest, idr)
    requires |Code(u)| <= i < |Code(u)| + |u.bytes| && i + 4 < |Code(u) + u.bytes + rest|
    ensures IdrAt(Code(u) + u.bytes + rest, i) ==> idr
  {
    var p, c, n := Code(u) + u.bytes + rest, |Code(u)|, |Code(u)| + |u.bytes|;
    assert forall k :: c <= k < n ==> p[k] == u.bytes[k - c];
    assert forall k :: n <= k < |p| ==> p[k] == rest[k - n];
    InsideAt(p, u.bytes, rest, c, n, i, idr);
  }

  lemma InsideAt(p: Bytes, bytes: Bytes, rest: Bytes, c: nat, n: nat, i: nat, idr: bool)
    requires n == c + |bytes| && |p| == n + |rest| && c <= i < n && i + 4 < |p| && Follows(rest, idr)
    requires forall j :: 0 <= j < |bytes| - 2 ==> !(bytes[j] == 0 && bytes[j + 1] == 0 && bytes[j + 2] == 1)
    requires forall k :: c <= k < n ==> p[k] == bytes[k - c]
    requires forall k :: n <= k < |p| ==> p[k] == rest[k - n]
    ensures IdrAt(p, i) ==> idr
  {
    if i + 2 < n { assert !(bytes[i - c] == 0 && bytes[i - c + 1] == 0 && bytes[i - c + 2] == 1); }
    if i + 3 < n { assert !(bytes[i - c + 1] == 0 && bytes[i - c + 2] == 0 && bytes[i - c + 3] == 1); }
  }

  /** Before the next unit, only the leading start code can match. */
  lemma IdrInFirst(u: Unit, rest: Bytes, idr: bool, i: nat)
    requires WellFormed(u) && Follows(rest, idr)
    requires i + 4 < |Code(u) + u.bytes + rest| && i < |Code(u)| + |u.bytes| && IdrAt(Code(u) + u.bytes + rest, i)
    ensures IsIdr(u) || idr
  {
    if i >= |Code(u)| {
      InsideIsClean(u, rest, idr, i);
    } else {
      assert (Code(u) + u.bytes + rest)[|Code(u)|] == u.bytes[0];
    }
  }

  lemma IdrShift(a: Bytes, b: Bytes, i: nat)
    requires i + 4 < |b|
    ensures IdrAt(a + b, |a| + i) == IdrAt(b, i)
  {
    assert forall k :: i <= k <= i + 4 ==> (a + b)[|a| + k] == b[k];
  }

  /** An IDR is found in a unit and what follows it exactly when the unit is one or what follows holds one. */
  lemma FoundInEither(u: Unit, rest: Bytes, idr: bool)
    requires WellFormed(u) && Follows(rest, idr) && (idr ==> HasIdr(rest))
    ensures HasIdr(Code(u) + u.bytes + rest) <==> IsIdr(u) || HasIdr(rest)
  {
    var p, n := Code(u) + u.bytes + rest, |Code(u)| + |u.bytes|;
    if IsIdr(u) {
      assert p[|Code(u)|] == u.bytes[0];
      assert IdrAt(p, 0);
    }
    if HasIdr(rest) {
      var i: nat :| i + 4 < |rest| && IdrAt(rest, i);
      IdrShift(Code(u) + u.bytes, rest, i);
    }
    if HasIdr(p) {
      var i: nat :| i + 4 < |p| && IdrAt(p, i);
      if i < n { IdrInFirst(u, rest, idr, i); } else { IdrShift(Code(u) + u.bytes, rest, i - n); }
    }
  }

  /** The scan finds an IDR exactly in the payloads that hold one. */
  lemma {:induction false} IdrFoundExactly(units: seq<Unit>)
    requires forall k :: 0 <= k < |units| ==> WellFormed(units[k])
    ensures HasIdr(WriteUnits(units)) <==> AnyIdr(units)
  {
    if units != [] {
      IdrFoundExactly(units[1..]);
      WriteStarts(units[1..]);
      FoundInEither(units[0], WriteUnits(units[1..]), units[1..] != [] && IsIdr(units[1]));
    }
  }

  /** The one unit it misses: a bare IDR header behind a short start code at the very end. */
  lemma BareShortTailIsMissed()
    ensures IsIdr(Unit(false, [5])) && !HasIdr(WriteUnits([Unit(false, [5])]))
  {
    assert WriteUnits([Unit(false, [5])]) == [0, 0, 1, 5];
  }

  // ---------- The backend ----------

  datatype Frame = Frame(width: nat, height: nat, buffer: Bytes, isRefresh: bool, timestamp: nat)

  /** `last` is the number of the last picture encoded; a fresh encoder has none. */
  datatype Encoder = Encoder(forced: bool, last: Option<nat>)

  /** `count` numbers the pictures encoded. */
  datatype Backend = Backend(
    encoder: Option<Encoder>, width: nat, height: nat, keyframeInterval: nat, framesSinceIdr: nat, count: nat)

  datatype FrameType = IFrame | PFrame

  /** What a payload decodes to: a numbered picture, predicted from another unless it stands alone. */
  datatype Picture = Picture(number: nat, reference: Option<nat>)

  datatype EncodedFrame = EncodedFrame(
    sequence: nat, timestamp: nat, frameType: FrameType, width: nat, height: nat, payload: Bytes, picture: Picture)

  /** How the codec library behaves on one call; it writes one of two lists of units. */
  datatype Library = Library(
    startFails: bool, encodeFails: bool, ownAccord: bool, idrUnits: seq<Unit>, deltaUnits: seq<Unit>)

  predicate Sane(lib: Library) {
    && (forall k :: 0 <= k < |lib.idrUnits| ==> WellFormed(lib.idrUnits[k])) && AnyIdr(lib.idrUnits)
    && (forall k :: 0 <= k < |lib.deltaUnits| ==> WellFormed(lib.deltaUnits[k])) && !AnyIdr(lib.deltaUnits)
  }

  datatype EncodeResult = Encoded(frame: EncodedFrame) | NoPixels | InitFailed | EncodeFailed | Panicked

  predicate HasPixels(f: Frame) {
    f.width * f.height * 4 < U64 && |f.buffer| >= f.width * f.height * 4
  }

  /** The colour conversion of the frame and the slicing of its planes run to their end: the offsets of the planes
      fit 32 bits and no access is out of bounds. */
  predicate Convertible(f: Frame) {
    f.width * f.height + f.width * f.height / 4 < U32 && LastInBounds(f.width, f.height, |f.buffer|)
  }

  function ForceKeyframe(b: Backend): Backend {
    b.(encoder := if b.encoder.Some? then Some(b.encoder.value.(forced := true)) else None, framesSinceIdr := 0)
  }

  predicate MustStart(b: Backend, f: Frame) {
    b.encoder.None? || f.width != b.width || f.height != b.height
  }

  function Started(b: Backend, f: Frame): Backend {
    if MustStart(b, f) then
      b.(encoder := Some(Encoder(false, None)), width := f.width, height := f.height, framesSinceIdr := 0)
    else b
  }

  /** Started, and forced if the keyframe interval is up. */
  function Ready(b: Backend, f: Frame): (r: Backend)
    ensures r.encoder.Some?
  {
    var s := Started(b, f);
    if s.keyframeInterval > 0 && s.framesSinceIdr >= s.keyframeInterval then
      s.(encoder := Some(s.encoder.value.(forced := true)))
    else s
  }

  predicate WillBeIdr(e: Encoder) {
    e.forced || e.last.None?
  }

  ghost function EncodeReady(b: Backend, f: Frame, sequence: nat, lib: Library): (EncodedFrame, Backend)
    requires b.encoder.Some?
  {
    var idr := WillBeIdr(b.encoder.value) || lib.ownAccord;
    var payload := WriteUnits(if idr then lib.idrUnits else lib.deltaUnits);
    (EncodedFrame(sequence, f.timestamp, if HasIdr(payload) then IFrame else PFrame, b.width, b.height, payload,
                  Picture(b.count, if idr then None else b.encoder.value.last)),
     b.(encoder := Some(Encoder(false, Some(b.count))), count := b.count + 1,
        framesSinceIdr := if HasIdr(payload) then 0 else b.framesSinceIdr + 1))
  }

  ghost function Encode(b: Backend, f: Frame, sequence: nat, lib: Library): (EncodeResult, Backend) {
    if !HasPixels(f) then (NoPixels, b)
    else if MustStart(b, f) && lib.startFails then (InitFailed, b)
    else
      var ready := Ready(b, f);
      if !Convertible(f) then (Panicked, ready)
      else if lib.encodeFails then (EncodeFailed, ready)
      else
        var (frame, done) := EncodeReady(ready, f, sequence, lib);
        (Encoded(frame), done)
  }

  // ---------- The loop ----------

  datatype Sending = Sent | Full | Closed

  /** One turn: the frame received and the newer ones drained behind it, and what the codec and the channel do. */
  datatype Turn = Turn(first: Frame, newer: seq<Frame>, lib: Library, sending: Sending)

  datatype Progress = Running | Finished | Crashed

  datatype State = State(backend: Backend, sequence: nat, delivered: seq<EncodedFrame>, progress: Progress)

  function Newest(t: Turn): Frame {
    if t.newer == [] then t.first else t.newer[|t.newer| - 1]
  }

  ghost function TakeTurn(s: State, t: Turn): State {
    var f := Newest(t);
    var refreshed := if f.isRefresh then ForceKeyframe(s.backend) else s.backend;
    var (r, b) := Encode(refreshed, f, s.sequence, t.lib);
    Settle(s, r, b, t.sending)
  }

  /** What becomes of the result. */
  ghost function Settle(s: State, r: EncodeResult, b: Backend, sending: Sending): State {
    if r.Panicked? then s.(backend := b, progress := Crashed)
    else if !r.Encoded? then s.(backend := b)
    else match sending
         case Sent => s.(backend := b, sequence := s.sequence + 1, delivered := s.delivered + [r.frame])
         case Full => s.(backend := ForceKeyframe(b))
         case Closed => s.(backend := b, progress := Finished)
  }

  ghost function Turns(s: State, turns: seq<Turn>): State
    decreases |turns|
  {
    if turns == [] || !s.progress.Running? then s else Turns(TakeTurn(s, turns[0]), turns[1..])
  }

  function NewBackend(keyframeInterval: nat): Backend {
    Backend(None, 0, 0, keyframeInterval, 0, 0)
  }

  // ---------- When a turn makes an IDR ----------

  /** The keyframe interval is up. */
  predicate IntervalUp(b: Backend) {
    b.keyframeInterval > 0 && b.framesSinceIdr >= b.keyframeInterval
  }

  /** A picture that gets encoded is an IDR exactly when the newest frame of the turn is a refresh, the encoder is
      started for it, is still to encode its first picture or was forced, its interval is up, or it makes one of
      its own accord. */
  lemma IdrExactly(s: State, t: Turn)
    requires Sane(t.lib)
    ensures var f := Newest(t);
            var b := if f.isRefresh then ForceKeyframe(s.backend) else s.backend;
            var r := Encode(b, f, s.sequence, t.lib).0;
            r.Encoded? ==>
              (r.frame.frameType == IFrame <==>
                 || f.isRefresh || MustStart(s.backend, f) || WillBeIdr(s.backend.encoder.value) || IntervalUp(s.backend)
                 || t.lib.ownAccord)
  {
    IdrFoundExactly(t.lib.idrUnits);
    IdrFoundExactly(t.lib.deltaUnits);
  }

  function Ordinary(frames: seq<Frame>): seq<Frame> {
    seq(|frames|, k requires 0 <= k < |frames| => frames[k].(isRefresh := false))
  }

  /** So a refresh counts only if it is the last of its drain: turning every frame behind which another was waiting
      into an ordinary one changes nothing. */
  lemma DrainedRefreshIsForgotten(s: State, t: Turn)
    requires t.newer != []
    ensures var n := |t.newer| - 1;
            TakeTurn(s, t) == TakeTurn(s, t.(first := t.first.(isRefresh := false), newer := Ordinary(t.newer[..n]) + [t.newer[n]]))
  {
    var n := |t.newer| - 1;
    var t' := t.(first := t.first.(isRefresh := false), newer := Ordinary(t.newer[..n]) + [t.newer[n]]);
    assert Newest(t') == Newest(t);
  }

  // ---------- Which turns deliver ----------

  /** At least four bytes a pixel, every access of the conversion in bounds, plane offsets that fit 32 bits. */
  ghost predicate Drawable(w: nat, h: nat, bytes: nat) {
    4 * (w * h) <= bytes && InBounds(w, h, bytes) && w * h + w * h / 4 < 0x1_0000_0000
  }

  /** A turn's newest frame is encoded exactly when it can be drawn and the library starts, where a start is needed, and
      encodes. */
  lemma EncodedExactly(s: State, t: Turn)
    ensures var f := Newest(t);
            var b := if f.isRefresh then ForceKeyframe(s.backend) else s.backend;
            Encode(b, f, s.sequence, t.lib).0.Encoded? <==>
              && Drawable(f.width, f.height, |f.buffer|)
              && ((s.backend.encoder.Some? && (s.backend.width, s.backend.height) == (f.width, f.height)) || !t.lib.startFails)
              && !t.lib.encodeFails
  {
    var f := Newest(t);
    InBoundsExactly(f.width, f.height, |f.buffer|);
  }

  /** For even sides that is a matter of how many bytes there are; odd sides crash the turn when there are four
      bytes a pixel and no more. */
  lemma DrawableExactly(w: nat, h: nat, bytes: nat)
    ensures w % 2 == 0 && h % 2 == 0 ==>
              (Drawable(w, h, bytes) <==> 4 * (w * h) <= bytes && w * h + w * h / 4 < 0x1_0000_0000)
    ensures w * h > 0 && !(w % 2 == 0 && h % 2 == 0) ==> !Drawable(w, h, 4 * (w * h))
  {
    ExactBufferInBounds(w, h);
    InBoundsExactly(w, h, bytes);
    if w > 0 && h > 0 && w % 2 == 0 && h % 2 == 0 && 4 * (w * h) <= bytes { EvenInBounds(w, h, bytes); }
  }

  /** What is said of a frame that is delivered. */
  datatype Label = Label(timestamp: nat, width: nat, height: nat, isKey: bool)

  function LabelOf(e: EncodedFrame): Label {
    Label(e.timestamp, e.width, e.height, e.frameType == IFrame)
  }

  function Labels(frames: seq<EncodedFrame>): (r: seq<Label>)
    ensures |r| == |frames|
  {
    seq(|frames|, k requires 0 <= k < |frames| => LabelOf(frames[k]))
  }

  /** By the turns alone: the size the encoder runs at, whether its next picture is to be an IDR, how many pictures it
      has encoded since one was last made or asked for, what has been shown, and how the loop stands. */
  datatype Show = Show(size: Option<(nat, nat)>, keyDue: bool, since: nat, shown: seq<Label>, progress: Progress)

  /** An IDR is asked for. */
  function Asked(h: Show): Show {
    h.(keyDue := h.size.Some?, since := 0)
  }

  /** An encoder of the frame's size, and an IDR due if it is a new one. */
  function Sized(h: Show, f: Frame): Show {
    if h.size == Some((f.width, f.height)) then h
    else h.(size := Some((f.width, f.height)), keyDue := true, since := 0)
  }

  function Paced(h: Show, interval: nat): Show {
    h.(keyDue := h.keyDue || (interval > 0 && h.since >= interval))
  }

  predicate Enough(f: Frame) {
    4 * (f.width * f.height) <= |f.buffer| && 4 * (f.width * f.height) < U64
  }

  predicate Starts(h: Show, f: Frame, lib: Library) {
    h.size == Some((f.width, f.height)) || !lib.startFails
  }

  ghost function Watch(h: Show, t: Turn, interval: nat): Show {
    var f := ([t.first] + t.newer)[|t.newer|];
    var asked := if f.isRefresh then Asked(h) else h;
    if !Enough(f) || !Starts(asked, f, t.lib) then asked
    else
      var ready := Paced(Sized(asked, f), interval);
      if !Drawable(f.width, f.height, |f.buffer|) then ready.(progress := Crashed)
      else if t.lib.encodeFails then ready
      else
        var isKey := ready.keyDue || t.lib.ownAccord;
        var done := ready.(keyDue := false, since := if isKey then 0 else ready.since + 1);
        match t.sending
        case Sent => done.(shown := done.shown + [Label(f.timestamp, f.width, f.height, isKey)])
        case Full => Asked(done)
        case Closed => done.(progress := Finished)
  }

  ghost function WatchAll(h: Show, turns: seq<Turn>, interval: nat): Show
    decreases |turns|
  {
    if turns == [] || !h.progress.Running? then h else WatchAll(Watch(h, turns[0], interval), turns[1..], interval)
  }

  function Shows(b: Backend, delivered: seq<EncodedFrame>, progress: Progress): Show {
    Show(if b.encoder.None? then None else Some((b.width, b.height)), b.encoder.Some? && WillBeIdr(b.encoder.value),
         b.framesSinceIdr, Labels(delivered), progress)
  }

  function ShowOf(s: State): Show {
    Shows(s.backend, s.delivered, s.progress)
  }

  lemma ForceShows(b: Backend, delivered: seq<EncodedFrame>, progress: Progress)
    ensures Shows(ForceKeyframe(b), delivered, progress) == Asked(Shows(b, delivered, progress))
    ensures ForceKeyframe(b).keyframeInterval == b.keyframeInterval
  {
  }

  lemma ReadyShows(b: Backend, f: Frame, delivered: seq<EncodedFrame>, progress: Progress)
    ensures Shows(Ready(b, f), delivered, progress) == Paced(Sized(Shows(b, delivered, progress), f), b.keyframeInterval)
    ensures Ready(b, f).width == f.width && Ready(b, f).height == f.height && Ready(b, f).keyframeInterval == b.keyframeInterval
  {
  }

  /** What encoding leaves, and what it says of the frame. */
  lemma EncodeShows(b: Backend, f: Frame, sequence: nat, lib: Library, delivered: seq<EncodedFrame>, progress: Progress)
    requires b.encoder.Some? && Sane(lib)
    ensures var (e, b') := EncodeReady(b, f, sequence, lib);
            var h := Shows(b, delivered, progress);
            var isKey := h.keyDue || lib.ownAccord;
            && LabelOf(e) == Label(f.timestamp, b.width, b.height, isKey) && b'.keyframeInterval == b.keyframeInterval
            && Shows(b', delivered, progress) == h.(keyDue := false, since := if isKey then 0 else h.since + 1)
  {
    IdrFoundExactly(lib.idrUnits);
    IdrFoundExactly(lib.deltaUnits);
  }

  /** When it comes to what. */
  lemma EncodeEnds(b: Backend, f: Frame, sequence: nat, lib: Library)
    ensures var r := Encode(b, f, sequence, lib).0;
            var starts := (b.encoder.Some? && (b.width, b.height) == (f.width, f.height)) || !lib.startFails;
            && (r.NoPixels? <==> !Enough(f))
            && (r.InitFailed? <==> Enough(f) && !starts)
            && (r.Panicked? <==> Enough(f) && starts && !Drawable(f.width, f.height, |f.buffer|))
            && (r.EncodeFailed? <==> Enough(f) && starts && Drawable(f.width, f.height, |f.buffer|) && lib.encodeFails)
  {
    InBoundsExactly(f.width, f.height, |f.buffer|);
  }

  lemma EncodeLeaves(b: Backend, f: Frame, sequence: nat, lib: Library)
    ensures var (r, b') := Encode(b, f, sequence, lib);
            && (r.NoPixels? || r.InitFailed? ==> b' == b)
            && (r.Panicked? || r.EncodeFailed? ==> b' == Ready(b, f))
            && (r.Encoded? ==> (r.frame, b') == EncodeReady(Ready(b, f), f, sequence, lib))
  {
  }

  lemma SettleShows(s: State, r: EncodeResult, b: Backend, sending: Sending)
    ensures var h := Shows(b, s.delivered, s.progress);
            ShowOf(Settle(s, r, b, sending)) ==
              if r.Panicked? then h.(progress := Crashed)
              else if !r.Encoded? then h
              else match sending
                   case Sent => h.(shown := h.shown + [LabelOf(r.frame)])
                   case Full => Asked(h)
                   case Closed => h.(progress := Finished)
  {
    ForceShows(b, s.delivered, s.progress);
    if r.Encoded? { assert Labels(s.delivered + [r.frame]) == Labels(s.delivered) + [LabelOf(r.frame)]; }
  }

  lemma TurnShows(s: State, t: Turn)
    requires Sane(t.lib)
    ensures ShowOf(TakeTurn(s, t)) == Watch(ShowOf(s), t, s.backend.keyframeInterval)
    ensures TakeTurn(s, t).backend.keyframeInterval == s.backend.keyframeInterval
  {
    var f := Newest(t);
    assert f == ([t.first] + t.newer)[|t.newer|];
    var b := if f.isRefresh then ForceKeyframe(s.backend) else s.backend;
    ForceShows(s.backend, s.delivered, s.progress);
    ReadyShows(b, f, s.delivered, s.progress);
    EncodeShows(Ready(b, f), f, s.sequence, t.lib, s.delivered, s.progress);
    EncodeEnds(b, f, s.sequence, t.lib);
    EncodeLeaves(b, f, s.sequence, t.lib);
    var (r, b') := Encode(b, f, s.sequence, t.lib);
    SettleShows(s, r, b', t.sending);
  }

  /** Main result: over every run, what is delivered is, in order, one frame for each turn whose newest frame could be
      drawn, was encoded and was taken by the channel, with that frame's timestamp and size, and marked as an IDR
      exactly when one was due or made of the library's own accord. */
  lemma {:induction false} DeliveredExactly(s: State, turns: seq<Turn>)
    requires forall k :: 0 <= k < |turns| ==> Sane(turns[k].lib)
    ensures ShowOf(Turns(s, turns)) == WatchAll(ShowOf(s), turns, s.backend.keyframeInterval)
    decreases |turns|
  {
    if turns != [] && s.progress.Running? {
      TurnShows(s, turns[0]);
      DeliveredExactly(TakeTurn(s, turns[0]), turns[1..]);
    }
  }

  // ---------- What the viewer gets ----------

  /** Numbered from 0 without gaps; marked as what they are; and every delta frame is predicted from the
      frame delivered immediately before it. */
  ghost predicate Playable(frames: seq<EncodedFrame>) {
    forall k :: 0 <= k < |frames| ==>
      && frames[k].sequence == k
      && (frames[k].frameType == IFrame <==> frames[k].picture.reference.None?)
      && (frames[k].picture.reference.Some? ==>
            k > 0 && frames[k].picture.reference.value == frames[k - 1].picture.number)
  }

  /** How many delta frames stand at the end. */
  function DeltaRun(frames: seq<EncodedFrame>): nat {
    if frames == [] || frames[|frames| - 1].frameType == IFrame then 0
    else 1 + DeltaRun(frames[..|frames| - 1])
  }

  predicate Continues(e: Encoder, frames: seq<EncodedFrame>) {
    WillBeIdr(e) || (frames != [] && e.last == Some(frames[|frames| - 1].picture.number))
  }

  predicate RunCounted(b: Backend, frames: seq<EncodedFrame>) {
    b.encoder.None? || WillBeIdr(b.encoder.value) || DeltaRun(frames) <= b.framesSinceIdr
  }

  predicate RunsBounded(frames: seq<EncodedFrame>, interval: nat) {
    forall k :: 0 <= k <= |frames| ==> DeltaRun(frames[..k]) <= interval
  }

  /** The backend and what was delivered go together. */
  predicate InStep(b: Backend, frames: seq<EncodedFrame>) {
    (b.encoder.Some? ==> Continues(b.encoder.value, frames)) && RunCounted(b, frames)
  }

  ghost predicate Inv(s: State) {
    && s.sequence == |s.delivered|
    && Playable(s.delivered)
    && (s.progress.Running? ==> InStep(s.backend, s.delivered))
    && (s.backend.keyframeInterval > 0 ==> RunsBounded(s.delivered, s.backend.keyframeInterval))
  }

  lemma {:induction false} ReadyInStep(b: Backend, f: Frame, frames: seq<EncodedFrame>)
    requires InStep(b, frames)
    ensures InStep(Ready(b, f), frames) && Ready(b, f).keyframeInterval == b.keyframeInterval
    ensures b.keyframeInterval > 0 && !WillBeIdr(Ready(b, f).encoder.value) ==>
              DeltaRun(frames) < b.keyframeInterval
  {
  }

  /** A frame encoded in step can be appended. */
  lemma EncodeInStep(b: Backend, f: Frame, lib: Library, frames: seq<EncodedFrame>)
    requires b.encoder.Some? && InStep(b, frames) && Playable(frames) && Sane(lib)
    ensures var (e, b') := EncodeReady(b, f, |frames|, lib);
            && Playable(frames + [e]) && InStep(b', frames + [e]) && b'.keyframeInterval == b.keyframeInterval
            && (e.frameType == PFrame ==> !WillBeIdr(b.encoder.value))
  {
    IdrFoundExactly(lib.idrUnits);
    IdrFoundExactly(lib.deltaUnits);
    var (e, b') := EncodeReady(b, f, |frames|, lib);
    assert (frames + [e])[..|frames|] == frames;
  }

  lemma {:induction false} BoundedSnoc(frames: seq<EncodedFrame>, e: EncodedFrame, interval: nat)
    requires RunsBounded(frames, interval) && (e.frameType == PFrame ==> DeltaRun(frames) < interval)
    ensures RunsBounded(frames + [e], interval)
  {
    var all := frames + [e];
    forall k | 0 <= k <= |all| ensures DeltaRun(all[..k]) <= interval {
      if k <= |frames| {
        assert all[..k] == frames[..k];
      } else {
        assert all[..k] == all && all[..|frames|] == frames;
        assert frames[..|frames|] == frames;
      }
    }
  }

  lemma ForceInStep(b: Backend, frames: seq<EncodedFrame>)
    ensures InStep(ForceKeyframe(b), frames)
  {
  }

  /** The turn's frame was encoded by an encoder in step and sent. */
  lemma SentKeeps(s: State, ready: Backend, f: Frame, lib: Library)
    requires Inv(s) && Sane(lib) && ready.encoder.Some? && InStep(ready, s.delivered)
    requires ready.keyframeInterval == s.backend.keyframeInterval
    requires s.backend.keyframeInterval > 0 && !WillBeIdr(ready.encoder.value) ==> DeltaRun(s.delivered) < s.backend.keyframeInterval
    ensures var (e, b') := EncodeReady(ready, f, s.sequence, lib);
            Inv(s.(backend := b', sequence := s.sequence + 1, delivered := s.delivered + [e]))
  {
    EncodeInStep(ready, f, lib, s.delivered);
    var (e, b') := EncodeReady(ready, f, s.sequence, lib);
    if s.backend.keyframeInterval > 0 { BoundedSnoc(s.delivered, e, s.backend.keyframeInterval); }
  }

  lemma EncodeMeans(b: Backend, f: Frame, sequence: nat, lib: Library)
    ensures var (r, b') := Encode(b, f, sequence, lib);
            && (r.Encoded? ==> (r.frame, b') == EncodeReady(Ready(b, f), f, sequence, lib))
            && (!r.Encoded? ==> b' == b || b' == Ready(b, f))
  {
  }

  lemma SettleKeeps(s: State, r: EncodeResult, b: Backend, sending: Sending)
    requires Inv(s) && s.progress.Running? && b.keyframeInterval == s.backend.keyframeInterval
    requires if r.Encoded? then Inv(s.(backend := b, sequence := s.sequence + 1, delivered := s.delivered + [r.frame]))
             else InStep(b, s.delivered)
    ensures Inv(Settle(s, r, b, sending)) && Settle(s, r, b, sending).backend.keyframeInterval == s.backend.keyframeInterval
  {
    ForceInStep(b, s.delivered);
  }

  lemma TurnKeeps(s: State, t: Turn)
    requires Inv(s) && s.progress.Running? && Sane(t.lib)
    ensures Inv(TakeTurn(s, t)) && TakeTurn(s, t).backend.keyframeInterval == s.backend.keyframeInterval
  {
    var f := Newest(t);
    var b := if f.isRefresh then ForceKeyframe(s.backend) else s.backend;
    ForceInStep(s.backend, s.delivered);
    ReadyInStep(b, f, s.delivered);
    SentKeeps(s, Ready(b, f), f, t.lib);
    EncodeMeans(b, f, s.sequence, t.lib);
    var (r, b') := Encode(b, f, s.sequence, t.lib);
    SettleKeeps(s, r, b', t.sending);
  }

  lemma {:induction false} TurnsKeep(s: State, turns: seq<Turn>)
    requires Inv(s) && forall k :: 0 <= k < |turns| ==> Sane(turns[k].lib)
    ensures Inv(Turns(s, turns)) && Turns(s, turns).backend.keyframeInterval == s.backend.keyframeInterval
    decreases |turns|
  {
    if turns != [] && s.progress.Running? {
      TurnKeeps(s, turns[0]);
      TurnsKeep(TakeTurn(s, turns[0]), turns[1..]);
    }
  }

  /** Main result: whatever frames arrive and are drained, whichever encodes fail, under any pattern of full
      and closed channels, what is delivered is playable; and with a keyframe interval set, no more delta
      frames than that ever follow one another. */
  lemma {:induction false} DeliveredIsPlayable(b: Backend, turns: seq<Turn>)
    requires b.encoder.Some? ==> b.encoder.value.last.None?
    requires forall k :: 0 <= k < |turns| ==> Sane(turns[k].lib)
    ensures var s := Turns(State(b, 0, [], Running), turns);
            Playable(s.delivered) && (b.keyframeInterval > 0 ==> RunsBounded(s.delivered, b.keyframeInterval))
  {
    TurnsKeep(State(b, 0, [], Running), turns);
  }
}

/** The backend and pipeline objects. */
module PipelineObjects {
  import opened Words
  import opened ColorConvert
  import opened Pipeline

  class OpenH264Backend {
    var encoder: Option<Encoder>
    var width: nat
    var height: nat
    const keyframeInterval: nat
    var framesSinceIdr: nat
    var count: nat

    ghost function Value(): Backend
      reads this
    {
      Backend(encoder, width, height, keyframeInterval, framesSinceIdr, count)
    }

    constructor (keyframeInterval: nat)
      ensures Value() == NewBackend(keyframeInterval)
    {
      encoder, width, height, framesSinceIdr, count := None, 0, 0, 0, 0;
      this.keyframeInterval := keyframeInterval;
    }

    method Start(width: nat, height: nat, lib: Library) returns (ok: bool)
      modifies this
      ensures ok == !lib.startFails
      ensures Value() == if !ok then old(Value())
                         else old(Value()).(encoder := Some(Encoder(false, None)), width := width, height := height,
                                            framesSinceIdr := 0)
    {
      if lib.startFails { return false; }
      encoder := Some(Encoder(false, None));
      this.width, this.height := width, height;
      framesSinceIdr := 0;
      ok := true;
    }

    method EncodeFrame(frame: Frame, sequence: nat, lib: Library) returns (r: EncodeResult)
      modifies this
      ensures (r, Value()) == Encode(old(Value()), frame, sequence, lib)
    {
      var expected := frame.width * frame.height * 4;
      if expected >= U64 || |frame.buffer| < expected { return NoPixels; }
      if encoder.None? || frame.width != width || frame.height != height {
        var ok := Start(frame.width, frame.height, lib);
        if !ok { return InitFailed; }
      }
      if keyframeInterval > 0 && framesSinceIdr >= keyframeInterval {
        encoder := Some(encoder.value.(forced := true));
      }
      assert Value() == Ready(old(Value()), frame);
      var planes := frame.width * frame.height + frame.width * frame.height / 4;
      if planes >= U32 || !LastInBounds(frame.width, frame.height, |frame.buffer|) { return Panicked; }
      if lib.encodeFails { return EncodeFailed; }
      var encoded := EncodePicture(frame, sequence, lib);
      r := Encoded(encoded);
    }

    /** The codec call and the bookkeeping after it. */
    method EncodePicture(frame: Frame, sequence: nat, lib: Library) returns (encoded: EncodedFrame)
      requires encoder.Some?
      modifies this
      ensures (encoded, Value()) == EncodeReady(old(Value()), frame, sequence, lib)
    {
      var idr := WillBeIdr(encoder.value) || lib.ownAccord;
      var payload := WriteUnits(if idr then lib.idrUnits else lib.deltaUnits);
      var picture := Picture(count, if idr then None else encoder.value.last);
      encoder := Some(Encoder(false, Some(count)));
      count := count + 1;

      var isIdr := DetectIdr(payload);
      if isIdr {
        framesSinceIdr := 0;
      } else {
        framesSinceIdr := framesSinceIdr + 1;
      }
      var frameType := if isIdr then IFrame else PFrame;
      encoded := EncodedFrame(sequence, frame.timestamp, frameType, width, height, payload, picture);
    }

    method ForceIntra()
      modifies this
      ensures Value() == ForceKeyframe(old(Value()))
    {
      if encoder.Some? {
        encoder := Some(encoder.value.(forced := true));
      }
      framesSinceIdr := 0;
    }

    method Stop()
      modifies this
      ensures Value() == old(Value()).(encoder := None)
    {
      encoder := None;
    }
  }

  /** The encode loop. `delivered` is what went into the channel. */
  method RunPipeline(backend: OpenH264Backend, turns: seq<Turn>) returns (delivered: seq<EncodedFrame>)
    modifies backend
    ensures var s := Turns(State(old(backend.Value()), 0, [], Running), turns);
            && delivered == s.delivered
            && backend.Value() == if s.progress.Crashed? then s.backend else s.backend.(encoder := None)
  {
    delivered := [];
    var sequence := 0;
    var progress := Running;
    var i := 0;
    ghost var goal := Turns(State(backend.Value(), 0, [], Running), turns);
    while i < |turns| && progress.Running?
      invariant i <= |turns|
      invariant Turns(State(backend.Value(), sequence, delivered, progress), turns[i..]) == goal
      decreases |turns| - i
    {
      ghost var before := State(backend.Value(), sequence, delivered, progress);
      assert turns[i..][0] == turns[i] && turns[i..][1..] == turns[i + 1..];
      var frame := Drain(turns[i]);
      if frame.isRefresh {
        backend.ForceIntra();
      }
      var r := backend.EncodeFrame(frame, sequence, turns[i].lib);
      if r.Panicked? {
        progress := Crashed;
      } else if r.Encoded? {
        match turns[i].sending {
          case Sent =>
            delivered := delivered + [r.frame];
            sequence := sequence + 1;
          case Full =>
            backend.ForceIntra();
          case Closed =>
            progress := Finished;
        }
      }
      assert State(backend.Value(), sequence, delivered, progress) == TakeTurn(before, turns[i]);
      i := i + 1;
    }
    if !progress.Crashed? { backend.Stop(); }
  }

  /** The newest of the frames waiting. */
  method Drain(t: Turn) returns (frame: Frame)
    ensures frame == Newest(t)
  {
    frame := t.first;
    var k := 0;
    while k < |t.newer|
      invariant k <= |t.newer|
      invariant frame == if k == 0 then t.first else t.newer[k - 1]
    {
      frame := t.newer[k];
      k := k + 1;
    }
  }

  /** What the loop puts into the channel is playable, from any backend that has not encoded yet. */
  method RunPlayable(backend: OpenH264Backend, turns: seq<Turn>) returns (delivered: seq<EncodedFrame>)
    requires backend.encoder.Some? ==> backend.encoder.value.last.None?
    requires forall k :: 0 <= k < |turns| ==> Sane(turns[k].lib)
    modifies backend
    ensures Playable(delivered)
    ensures backend.keyframeInterval > 0 ==> RunsBounded(delivered, backend.keyframeInterval)
  {
    DeliveredIsPlayable(backend.Value(), turns);
    delivered := RunPipeline(backend, turns);
  }
}
