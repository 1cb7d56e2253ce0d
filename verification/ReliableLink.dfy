/** Sender, network and receiver of the reliable stream as one transition system.

    The network loses, duplicates and reorders: it is the set of all frames ever emitted, and any of
    them may arrive at any time. Acknowledgements come from the environment and name only sequence
    numbers the receiver has accepted. `sent`, `named`, `seen` and `delivered` record the history.
 */
module ReliableLink {
  import opened Words
  import opened ReplayWindow
  import opened Reliability
  import opened SenderWindow

  datatype Link = Link(
    sender: Sender, sent: seq<Bytes>, named: set<nat>, network: set<Frame>,
    receiver: Receiver, seen: Seen, delivered: seq<Bytes>)

  function NewLink(windowSize: nat, policy: TimeoutPolicy): Link {
    Link(NewSender(windowSize, policy), [], {}, {}, NEW_RECEIVER, NOTHING, [])
  }

  datatype Step =
    | SendStep(payload: Bytes, now: nat)
    | ArriveStep(frame: Frame)
    | AckStep(ack: AckFrame)
    | TimeoutStep(now: nat)
    | RetransmitStep(now: nat)

  /** Sequence numbers stay below 2^64 - 64; frames come from the network; acknowledgements are honest. */
  ghost predicate Enabled(l: Link, step: Step) {
    match step
    case SendStep(_, _) => |l.sent| + 1 < U64 - 64
    case ArriveStep(f) => f in l.network
    case AckStep(ack) => forall n: nat :: Names(ack, 64, n) ==> n in l.seen.values
    case TimeoutStep(_) => true
    case RetransmitStep(_) => true
  }

  function Arrive(l: Link, f: Frame): Link {
    var r := Receive(l.receiver, f);
    l.(receiver := r.receiver,
       seen := if Admit(l.receiver.filter, f.seqNo).accepted then Accept(l.seen, f.seqNo) else l.seen,
       delivered := l.delivered + r.ready)
  }

  function Apply(l: Link, step: Step): Link {
    match step
    case SendStep(payload, now) =>
      var (r, sender) := Send(l.sender, payload, now);
      if r.WindowFull? then l
      else l.(sender := sender, sent := l.sent + [payload], network := l.network + {r.frame})
    case ArriveStep(f) => Arrive(l, f)
    case AckStep(ack) => l.(sender := Acknowledge(l.sender, ack), named := l.named + NamedBy(ack, |l.sent|))
    case TimeoutStep(now) => l.(sender := MarkTimeout(l.sender, now))
    case RetransmitStep(now) =>
      l.(sender := Retransmit(l.sender, now),
         network := l.network + (set f | f in Retransmitted(l.sender.queue, l.sender.policy)))
  }

  /** The states a run of steps passes through. */
  ghost predicate Run(states: seq<Link>, steps: seq<Step>) {
    && |states| == |steps| + 1
    && forall k :: 0 <= k < |steps| ==> Enabled(states[k], steps[k]) && states[k + 1] == Apply(states[k], steps[k])
  }

  ghost predicate Reachable(l: Link, windowSize: nat, policy: TimeoutPolicy) {
    exists states, steps ::
      Run(states, steps) && states[0] == NewLink(windowSize, policy) && states[|steps|] == l
  }

  // ---------- Invariant ----------

  ghost predicate SenderKnows(s: Sender, sent: seq<Bytes>) {
    && SenderOk(s)
    && s.nextSeq == |sent| < U64 - 64
    && |s.queue| <= s.windowSize
    && (forall k :: 0 <= k < |s.queue| ==> s.queue[k].frame.payload == sent[s.base + k])
  }

  /** What is in the network is what was sent; everything sent went in. */
  ghost predicate NetworkOk(network: set<Frame>, sent: seq<Bytes>) {
    && (forall f :: f in network ==> f.seqNo < |sent| && f.payload == sent[f.seqNo])
    && (forall k :: 0 <= k < |sent| ==> Frame(k, sent[k]) in network)
  }

  ghost predicate FilterOk(filter: Window, seen: Seen, count: nat) {
    && Represents(filter, seen)
    && (forall x :: x in seen.values ==> x < count)
    && (seen.newest == 0 || seen.newest < count)
  }

  /** The assembler has handed over everything below `nextExpected` and buffers what it accepted above. */
  ghost predicate AssemblerOk(a: Assembler, sent: seq<Bytes>, values: set<nat>, delivered: seq<Bytes>) {
    && a.nextExpected <= |sent|
    && delivered == sent[..a.nextExpected]
    && (forall k: nat :: k < a.nextExpected ==> k in values)
    && (forall k: nat :: k in a.buffer <==> k in values && k >= a.nextExpected)
    && (forall k: nat :: k in a.buffer ==> k < |sent| && a.buffer[k] == Frame(k, sent[k]))
  }

  ghost predicate Settled(a: Assembler) {
    a.nextExpected !in a.buffer
  }

  /** Only accepted frames have left the sender's queue or are marked acknowledged in it. */
  ghost predicate AcksHonest(base: nat, queue: seq<Entry>, values: set<nat>) {
    && (forall k: nat :: k < base ==> k in values)
    && (forall k :: 0 <= k < |queue| && queue[k].state.Acked? ==> base + k in values)
  }

  ghost predicate Inv(l: Link) {
    && SenderKnows(l.sender, l.sent)
    && NetworkOk(l.network, l.sent)
    && FilterOk(l.receiver.filter, l.seen, |l.sent|)
    && AssemblerOk(l.receiver.assembler, l.sent, l.seen.values, l.delivered)
    && Settled(l.receiver.assembler)
    && AcksHonest(l.sender.base, l.sender.queue, l.seen.values)
  }

  lemma InitialInv(windowSize: nat, policy: TimeoutPolicy)
    ensures Inv(NewLink(windowSize, policy))
  {
    FreshRepresentsNothing();
  }

  // ---------- Arrival ----------

  lemma DrainKeeps(a: Assembler, sent: seq<Bytes>, values: set<nat>, delivered: seq<Bytes>)
    requires AssemblerOk(a, sent, values, delivered) && |sent| < U64 && a.nextExpected in a.buffer
    ensures AssemblerOk(Drained(a), sent, values, delivered + [a.buffer[a.nextExpected].payload])
  {
    var ne := a.nextExpected;
    assert sent[..ne + 1] == sent[..ne] + [sent[ne]];
  }

  lemma AppendAssoc(a: seq<Bytes>, x: Bytes, b: seq<Bytes>)
    ensures a + ([x] + b) == a + [x] + b
  {
  }

  /** Assembling drains the contiguous frames and nothing else. */
  lemma {:induction false} AssembleKeeps(a: Assembler, sent: seq<Bytes>, values: set<nat>, delivered: seq<Bytes>)
    requires AssemblerOk(a, sent, values, delivered) && |sent| < U64
    ensures AssemblerOk(Assemble(a).assembler, sent, values, delivered + Assemble(a).ready)
    ensures Settled(Assemble(a).assembler)
    decreases |a.buffer|
  {
    if a.nextExpected in a.buffer {
      var payload := a.buffer[a.nextExpected].payload;
      DrainKeeps(a, sent, values, delivered);
      var rest := Assemble(Drained(a));
      AssembleKeeps(Drained(a), sent, values, delivered + [payload]);
      assert Assemble(a) == Assembled(rest.assembler, [payload] + rest.ready);
      AppendAssoc(delivered, payload, rest.ready);
    } else {
      assert delivered + [] == delivered;
    }
  }

  /** A newly accepted frame is never below `nextExpected`, so it is always buffered. */
  lemma InsertKeeps(a: Assembler, sent: seq<Bytes>, values: set<nat>, delivered: seq<Bytes>, f: Frame)
    requires AssemblerOk(a, sent, values, delivered)
    requires f.seqNo < |sent| && f.payload == sent[f.seqNo] && f.seqNo !in values
    ensures AssemblerOk(Insert(a, f), sent, values + {f.seqNo}, delivered)
  {
    assert f.seqNo >= a.nextExpected;
  }

  lemma ArriveFilter(l: Link, f: Frame)
    requires FilterOk(l.receiver.filter, l.seen, |l.sent|) && f.seqNo < |l.sent|
    ensures var l' := Arrive(l, f); FilterOk(l'.receiver.filter, l'.seen, |l'.sent|)
  {
    AdmitRefinesSet(l.receiver.filter, l.seen, f.seqNo);
  }

  lemma ArriveAssembler(l: Link, f: Frame)
    requires AssemblerOk(l.receiver.assembler, l.sent, l.seen.values, l.delivered) && Settled(l.receiver.assembler)
    requires Represents(l.receiver.filter, l.seen) && |l.sent| < U64
    requires f.seqNo < |l.sent| && f.payload == l.sent[f.seqNo]
    ensures var l' := Arrive(l, f);
            && AssemblerOk(l'.receiver.assembler, l'.sent, l'.seen.values, l'.delivered)
            && Settled(l'.receiver.assembler)
  {
    AdmitRefinesSet(l.receiver.filter, l.seen, f.seqNo);
    if Admit(l.receiver.filter, f.seqNo).accepted {
      InsertKeeps(l.receiver.assembler, l.sent, l.seen.values, l.delivered, f);
      AssembleKeeps(Insert(l.receiver.assembler, f), l.sent, l.seen.values + {f.seqNo}, l.delivered);
    } else {
      assert Arrive(l, f).delivered == l.delivered;
    }
  }

  lemma HonestMonotone(base: nat, queue: seq<Entry>, values: set<nat>, values': set<nat>)
    requires AcksHonest(base, queue, values) && values <= values'
    ensures AcksHonest(base, queue, values')
  {
  }

  lemma ArriveKeeps(l: Link, f: Frame)
    requires Inv(l) && f in l.network
    ensures Inv(Arrive(l, f))
  {
    ArriveFilter(l, f);
    ArriveAssembler(l, f);
    HonestMonotone(l.sender.base, l.sender.queue, l.seen.values, Arrive(l, f).seen.values);
  }

  // ---------- Sender steps ----------

  lemma AssemblerMore(a: Assembler, sent: seq<Bytes>, values: set<nat>, delivered: seq<Bytes>, payload: Bytes)
    requires AssemblerOk(a, sent, values, delivered)
    ensures AssemblerOk(a, sent + [payload], values, delivered)
  {
    assert (sent + [payload])[..a.nextExpected] == sent[..a.nextExpected];
  }

  lemma NetworkMore(network: set<Frame>, sent: seq<Bytes>, payload: Bytes)
    requires NetworkOk(network, sent)
    ensures NetworkOk(network + {Frame(|sent|, payload)}, sent + [payload])
  {
    forall k | 0 <= k < |sent + [payload]|
      ensures Frame(k, (sent + [payload])[k]) in network + {Frame(|sent|, payload)}
    {
      if k < |sent| { assert Frame(k, sent[k]) in network; }
    }
  }

  lemma SenderMore(s: Sender, sent: seq<Bytes>, payload: Bytes, now: nat)
    requires SenderKnows(s, sent) && |sent| + 1 < U64 - 64 && WindowAvailable(s) > 0
    ensures SenderKnows(Send(s, payload, now).1, sent + [payload])
  {
  }

  lemma SendKeeps(l: Link, payload: Bytes, now: nat)
    requires Inv(l) && Enabled(l, SendStep(payload, now))
    ensures Inv(Apply(l, SendStep(payload, now)))
  {
    if WindowAvailable(l.sender) > 0 {
      AssemblerMore(l.receiver.assembler, l.sent, l.seen.values, l.delivered, payload);
      NetworkMore(l.network, l.sent, payload);
      SenderMore(l.sender, l.sent, payload, now);
      FilterMore(l.receiver.filter, l.seen, |l.sent|);
      HonestMore(l.sender.base, l.sender.queue, l.seen.values, Entry(Frame(l.sender.nextSeq, payload), now, 0, Pending));
    }
  }

  lemma FilterMore(filter: Window, seen: Seen, count: nat)
    requires FilterOk(filter, seen, count)
    ensures FilterOk(filter, seen, count + 1)
  {
  }

  lemma HonestMore(base: nat, queue: seq<Entry>, values: set<nat>, e: Entry)
    requires AcksHonest(base, queue, values) && !e.state.Acked?
    ensures AcksHonest(base, queue + [e], values)
  {
  }

  lemma {:induction false} AckedPrefixMeaning(queue: seq<Entry>, k: nat)
    requires k < AckedPrefix(queue)
    ensures queue[k].state.Acked?
  {
    if k > 0 { AckedPrefixMeaning(queue[1..], k - 1); }
  }

  lemma AckSender(s: Sender, sent: seq<Bytes>, ack: AckFrame)
    requires SenderKnows(s, sent)
    ensures SenderKnows(Acknowledge(s, ack), sent)
  {
    var marked := MarkNamed(s.queue, ack, 64);
    var n := AckedPrefix(marked);
    var s' := Acknowledge(s, ack);
    assert forall k :: 0 <= k < |s'.queue| ==> s'.queue[k].frame == s.queue[n + k].frame;
  }

  lemma MarkHonest(s: Sender, ack: AckFrame, values: set<nat>)
    requires SenderOk(s) && AcksHonest(s.base, s.queue, values)
    requires forall n: nat :: Names(ack, 64, n) ==> n in values
    ensures AcksHonest(s.base, MarkNamed(s.queue, ack, 64), values)
  {
    var marked := MarkNamed(s.queue, ack, 64);
    forall k | 0 <= k < |marked| && marked[k].state.Acked? ensures s.base + k in values {
      assert s.queue[k].frame.seqNo == s.base + k;
    }
  }

  lemma {:induction false} SlideHonest(base: nat, queue: seq<Entry>, values: set<nat>)
    requires AcksHonest(base, queue, values)
    ensures AcksHonest(base + AckedPrefix(queue), queue[AckedPrefix(queue)..], values)
  {
    var n := AckedPrefix(queue);
    forall k: nat | k < base + n ensures k in values {
      if k >= base {
        AckedPrefixMeaning(queue, k - base);
        assert base + (k - base) in values;
      }
    }
    forall k | 0 <= k < |queue[n..]| && queue[n..][k].state.Acked? ensures base + n + k in values {
      assert queue[n + k].state.Acked? && base + (n + k) in values;
    }
  }

  lemma AckKeeps(l: Link, ack: AckFrame)
    requires Inv(l) && Enabled(l, AckStep(ack))
    ensures Inv(Apply(l, AckStep(ack)))
  {
    AckSender(l.sender, l.sent, ack);
    MarkHonest(l.sender, ack, l.seen.values);
    SlideHonest(l.sender.base, MarkNamed(l.sender.queue, ack, 64), l.seen.values);
  }

  /** Timing out and re-arming entries changes neither frames nor what is acknowledged. */
  lemma SameFramesKeep(s: Sender, s': Sender, sent: seq<Bytes>, values: set<nat>)
    requires SenderKnows(s, sent) && AcksHonest(s.base, s.queue, values)
    requires s' == s.(queue := s'.queue) && |s'.queue| == |s.queue|
    requires forall k :: 0 <= k < |s.queue| ==>
               s'.queue[k].frame == s.queue[k].frame && (s'.queue[k].state.Acked? ==> s.queue[k].state.Acked?)
    ensures SenderKnows(s', sent) && AcksHonest(s'.base, s'.queue, values)
  {
  }

  lemma TimeoutKeeps(l: Link, now: nat)
    requires Inv(l)
    ensures Inv(Apply(l, TimeoutStep(now)))
  {
    SameFramesKeep(l.sender, MarkTimeout(l.sender, now), l.sent, l.seen.values);
  }

  lemma {:induction false} RetransmittedQueued(queue: seq<Entry>, policy: TimeoutPolicy, f: Frame)
    requires f in Retransmitted(queue, policy)
    ensures exists k :: 0 <= k < |queue| && queue[k].frame == f
  {
    var n := |queue| - 1;
    if f in Retransmitted(queue[..n], policy) {
      RetransmittedQueued(queue[..n], policy, f);
      var k :| 0 <= k < |queue[..n]| && queue[..n][k].frame == f;
      assert queue[k].frame == f;
    } else {
      assert queue[n].frame == f;
    }
  }

  /** Whatever is retransmitted was already sent once. */
  lemma RetransmitNetwork(s: Sender, sent: seq<Bytes>, network: set<Frame>)
    requires SenderKnows(s, sent) && NetworkOk(network, sent)
    ensures network + (set f | f in Retransmitted(s.queue, s.policy)) == network
  {
    forall f | f in Retransmitted(s.queue, s.policy) ensures f in network {
      RetransmittedQueued(s.queue, s.policy, f);
      var k :| 0 <= k < |s.queue| && s.queue[k].frame == f;
      assert f == Frame(s.base + k, sent[s.base + k]);
    }
  }

  lemma RetransmitKeeps(l: Link, now: nat)
    requires Inv(l)
    ensures Inv(Apply(l, RetransmitStep(now)))
  {
    SameFramesKeep(l.sender, Retransmit(l.sender, now), l.sent, l.seen.values);
    RetransmitNetwork(l.sender, l.sent, l.network);
  }

  lemma StepKeeps(l: Link, step: Step)
    requires Inv(l) && Enabled(l, step)
    ensures Inv(Apply(l, step))
    ensures Apply(l, step).sender.windowSize == l.sender.windowSize
  {
    match step
    case SendStep(payload, now) => SendKeeps(l, payload, now);
    case ArriveStep(f) => ArriveKeeps(l, f);
    case AckStep(ack) => AckKeeps(l, ack);
    case TimeoutStep(now) => TimeoutKeeps(l, now);
    case RetransmitStep(now) => RetransmitKeeps(l, now);
  }

  lemma {:induction false} RunKeeps(states: seq<Link>, steps: seq<Step>, n: nat)
    requires Run(states, steps) && Inv(states[0]) && n <= |steps|
    ensures Inv(states[n]) && states[n].sender.windowSize == states[0].sender.windowSize
  {
    if n > 0 {
      RunKeeps(states, steps, n - 1);
      StepKeeps(states[n - 1], steps[n - 1]);
    }
  }

  lemma ReachableInv(l: Link, windowSize: nat, policy: TimeoutPolicy)
    requires Reachable(l, windowSize, policy)
    ensures Inv(l) && l.sender.windowSize == windowSize
  {
    var states, steps :|
      Run(states, steps) && states[0] == NewLink(windowSize, policy) && states[|steps|] == l;
    InitialInv(windowSize, policy);
    RunKeeps(states, steps, |steps|);
  }

  // ---------- Main results ----------

  /** Over every run, what the receiver has delivered is exactly the first `nextExpected` payloads
      sent: no gap, no repeat, no reordering, whatever the network does. */
  lemma DeliveryIsAPrefix(l: Link, windowSize: nat, policy: TimeoutPolicy)
    requires Reachable(l, windowSize, policy)
    ensures l.receiver.assembler.nextExpected <= |l.sent|
    ensures l.delivered == l.sent[..l.receiver.assembler.nextExpected]
  {
    ReachableInv(l, windowSize, policy);
  }

  /** Every payload sent is still queued at the sender or was accepted by the receiver. */
  lemma NothingForgotten(l: Link, windowSize: nat, policy: TimeoutPolicy, k: nat)
    requires Reachable(l, windowSize, policy) && k < |l.sent|
    ensures k in l.seen.values ||
            (0 <= k - l.sender.base < |l.sender.queue| && l.sender.queue[k - l.sender.base].frame == Frame(k, l.sent[k]))
  {
    ReachableInv(l, windowSize, policy);
  }

  lemma {:induction false} NamesStep(l: Link, step: Step)
    requires Inv(l) && NamedOk(l.sender, l.named) && Enabled(l, step)
    ensures NamedOk(Apply(l, step).sender, Apply(l, step).named)
  {
    match step
    case SendStep(payload, now) => SendNames(l.sender, payload, now, l.named);
    case ArriveStep(_) =>
    case AckStep(ack) => AckNames(l.sender, ack, l.named);
    case TimeoutStep(now) => SameNames(l.sender, MarkTimeout(l.sender, now), l.named);
    case RetransmitStep(now) => SameNames(l.sender, Retransmit(l.sender, now), l.named);
  }

  lemma {:induction false} RunNames(states: seq<Link>, steps: seq<Step>, n: nat)
    requires Run(states, steps) && Inv(states[0]) && NamedOk(states[0].sender, states[0].named) && n <= |steps|
    ensures NamedOk(states[n].sender, states[n].named)
  {
    if n > 0 {
      RunNames(states, steps, n - 1);
      RunKeeps(states, steps, n - 1);
      NamesStep(states[n - 1], steps[n - 1]);
    }
  }

  lemma {:induction false} ReachableNames(l: Link, windowSize: nat, policy: TimeoutPolicy)
    requires Reachable(l, windowSize, policy)
    ensures NamedOk(l.sender, l.named)
  {
    var states, steps :|
      Run(states, steps) && states[0] == NewLink(windowSize, policy) && states[|steps|] == l;
    InitialInv(windowSize, policy);
    RunNames(states, steps, |steps|);
  }

  /** Over every run the base of the window is the least number no acknowledgement has named, and a send is refused if
      and only if a whole window lies between it and the next. */
  lemma WindowReopensExactly(l: Link, windowSize: nat, policy: TimeoutPolicy, least: nat, payload: Bytes, now: nat)
    requires Reachable(l, windowSize, policy) && LeastUnnamed(l.named, least)
    ensures l.sender.base == least <= |l.sent|
    ensures Send(l.sender, payload, now).0 ==
              if |l.sent| - least >= windowSize then WindowFull else Sent(Frame(|l.sent|, payload))
  {
    ReachableInv(l, windowSize, policy);
    ReachableNames(l, windowSize, policy);
    WindowIsExact(l.sender, l.named, payload, now, least);
  }

  /** An acknowledgement that names everything sent and not yet named leaves nothing queued and the window open. */
  lemma AllNamedReopensLink(l: Link, windowSize: nat, policy: TimeoutPolicy, ack: AckFrame)
    requires Reachable(l, windowSize, policy)
    requires forall n: nat :: n < |l.sent| && n !in l.named ==> Names(ack, 64, n)
    ensures var l' := Apply(l, AckStep(ack));
            l'.sender.queue == [] && WindowAvailable(l'.sender) == windowSize
  {
    ReachableInv(l, windowSize, policy);
    ReachableNames(l, windowSize, policy);
    AllNamedReopens(l.sender, l.named, ack);
  }

  /** The filter would take every queued frame the receiver does not have yet. */
  ghost predicate TakesAllQueued(l: Link) {
    forall k :: 0 <= k < |l.sender.queue| && l.sender.queue[k].frame.seqNo !in l.seen.values ==>
      Admit(l.receiver.filter, l.sender.queue[k].frame.seqNo).accepted
  }

  lemma SmallWindowTakesAllQueued(l: Link)
    requires Inv(l) && l.sender.windowSize <= 64
    ensures TakesAllQueued(l)
  {
    forall k | 0 <= k < |l.sender.queue| && l.sender.queue[k].frame.seqNo !in l.seen.values
      ensures Admit(l.receiver.filter, l.sender.queue[k].frame.seqNo).accepted
    {
      AdmitRefinesSet(l.receiver.filter, l.seen, l.sender.queue[k].frame.seqNo);
    }
  }

  function ArriveAll(l: Link, frames: seq<Frame>): Link {
    if frames == [] then l else Arrive(ArriveAll(l, frames[..|frames| - 1]), frames[|frames| - 1])
  }

  lemma {:induction false} ArriveAllKeeps(l: Link, frames: seq<Frame>)
    requires Inv(l) && forall f :: f in frames ==> f in l.network
    ensures Inv(ArriveAll(l, frames))
    ensures var l' := ArriveAll(l, frames);
            l'.sender == l.sender && l'.sent == l.sent && l'.network == l.network && l.seen.values <= l'.seen.values
  {
    if frames != [] {
      var init := frames[..|frames| - 1];
      forall f | f in init ensures f in l.network { assert f in frames; }
      ArriveAllKeeps(l, init);
      ArriveKeeps(ArriveAll(l, init), frames[|frames| - 1]);
    }
  }

  /** With a window of at most 64, a queued frame that arrives has been accepted, then or before. */
  lemma {:induction false} ArrivedIsSeen(l: Link, frames: seq<Frame>, j: nat, k: nat)
    requires Inv(l) && l.sender.windowSize <= 64 && forall f :: f in frames ==> f in l.network
    requires j < |frames| && k < |l.sender.queue| && frames[j] == l.sender.queue[k].frame
    ensures l.sender.base + k in ArriveAll(l, frames).seen.values
  {
    var upTo := frames[..j];
    forall f | f in upTo ensures f in l.network { assert f in frames; }
    LastIsSeen(l, upTo, k);
    assert frames[..j + 1][..j] == upTo;
    SeenByThen(l, frames, j + 1);
  }

  lemma {:induction false} SeenByThen(l: Link, frames: seq<Frame>, n: nat)
    requires n <= |frames|
    ensures ArriveAll(l, frames[..n]).seen.values <= ArriveAll(l, frames).seen.values
  {
    if n == |frames| {
      assert frames[..n] == frames;
    } else {
      var init := frames[..|frames| - 1];
      SeenByThen(l, init, n);
      assert init[..n] == frames[..n];
      SeenGrows(ArriveAll(l, init), frames[|frames| - 1]);
    }
  }

  lemma {:induction false} LastIsSeen(l: Link, frames: seq<Frame>, k: nat)
    requires Inv(l) && l.sender.windowSize <= 64 && forall f :: f in frames ==> f in l.network
    requires k < |l.sender.queue|
    ensures l.sender.base + k in Arrive(ArriveAll(l, frames), l.sender.queue[k].frame).seen.values
  {
    ArriveAllKeeps(l, frames);
    TakenOnArrival(ArriveAll(l, frames), k);
  }

  lemma SeenGrows(l: Link, f: Frame)
    ensures l.seen.values <= Arrive(l, f).seen.values
  {
  }

  lemma TakenOnArrival(l: Link, k: nat)
    requires Inv(l) && l.sender.windowSize <= 64 && k < |l.sender.queue|
    ensures l.sender.base + k in Arrive(l, l.sender.queue[k].frame).seen.values
  {
    SmallWindowTakesAllQueued(l);
    assert l.sender.queue[k].frame.seqNo == l.sender.base + k;
  }

  /** From every reachable state of a link with a window of at most 64, once each queued frame has
      arrived, in any order, any number of times and mixed with anything else from the network, the
      receiver has delivered everything that was sent. */
  lemma {:induction false} ArrivalsDeliverEverything(l: Link, windowSize: nat, policy: TimeoutPolicy, frames: seq<Frame>)
    requires Reachable(l, windowSize, policy) && windowSize <= 64
    requires forall f :: f in frames ==> f in l.network
    requires forall k :: 0 <= k < |l.sender.queue| ==> l.sender.queue[k].frame in frames
    ensures ArriveAll(l, frames).delivered == l.sent
  {
    ReachableInv(l, windowSize, policy);
    ArriveAllKeeps(l, frames);
    var l' := ArriveAll(l, frames);
    forall n: nat | n < |l.sent| ensures n in l'.seen.values { SeenAfterArrivals(l, frames, n); }
    AllSeenAllDelivered(l'.receiver.assembler, l'.sent, l'.seen.values, l'.delivered);
  }

  /** Where in the queue a number not yet acknowledged stands. */
  lemma QueuedAt(l: Link, n: nat) returns (k: nat)
    requires Inv(l) && l.sender.base <= n < |l.sent|
    ensures k == n - l.sender.base && k < |l.sender.queue|
  {
    k := n - l.sender.base;
  }

  lemma ForgottenIsSeen(l: Link, n: nat)
    requires Inv(l) && n < l.sender.base
    ensures n in l.seen.values
  {
  }

  lemma {:induction false} SeenAfterArrivals(l: Link, frames: seq<Frame>, n: nat)
    requires Inv(l) && l.sender.windowSize <= 64 && n < |l.sent|
    requires forall f :: f in frames ==> f in l.network
    requires forall k :: 0 <= k < |l.sender.queue| ==> l.sender.queue[k].frame in frames
    ensures n in ArriveAll(l, frames).seen.values
  {
    if n >= l.sender.base {
      var k := QueuedAt(l, n);
      assert l.sender.queue[k].frame in frames;
      var j :| 0 <= j < |frames| && frames[j] == l.sender.queue[k].frame;
      ArrivedIsSeen(l, frames, j, k);
    } else {
      ArriveAllKeeps(l, frames);
      ForgottenIsSeen(l, n);
    }
  }

  lemma AllSeenAllDelivered(a: Assembler, sent: seq<Bytes>, values: set<nat>, delivered: seq<Bytes>)
    requires AssemblerOk(a, sent, values, delivered) && Settled(a)
    requires forall n: nat :: n < |sent| ==> n in values
    ensures delivered == sent
  {
    assert a.nextExpected == |sent|;
    assert sent[..|sent|] == sent;
  }

  // ---------- The window bound is exact ----------

  lemma ReachableStep(l: Link, step: Step, windowSize: nat, policy: TimeoutPolicy)
    requires Reachable(l, windowSize, policy) && Enabled(l, step)
    ensures Reachable(Apply(l, step), windowSize, policy)
  {
    var states, steps :|
      Run(states, steps) && states[0] == NewLink(windowSize, policy) && states[|steps|] == l;
    var states', steps' := states + [Apply(l, step)], steps + [step];
    assert Run(states', steps') by {
      forall k | 0 <= k < |steps'|
        ensures Enabled(states'[k], steps'[k]) && states'[k + 1] == Apply(states'[k], steps'[k])
      {
        if k < |steps| { assert states'[k] == states[k] && states'[k + 1] == states[k + 1]; }
      }
    }
  }

  lemma {:induction false} SendMany(windowSize: nat, policy: TimeoutPolicy, n: nat) returns (l: Link)
    requires n <= windowSize && n <= 65
    ensures Reachable(l, windowSize, policy) && |l.sent| == n
    ensures l.receiver == NEW_RECEIVER && l.seen == NOTHING && l.sender.base == 0
  {
    if n == 0 {
      l := NewLink(windowSize, policy);
      var none: seq<Step> := [];
      assert Run([l], none) && [l][0] == l && [l][|none|] == l;
    } else {
      var before := SendMany(windowSize, policy, n - 1);
      ReachableInv(before, windowSize, policy);
      ReachableStep(before, SendStep([], 0), windowSize, policy);
      l := Apply(before, SendStep([], 0));
    }
  }

  /** With a larger window the newest of 65 outstanding frames can arrive first; the oldest, which the sender still
      holds, is then too far behind. */
  lemma LargeWindowRefuses(windowSize: nat, policy: TimeoutPolicy) returns (l: Link)
    requires windowSize > 64
    ensures Reachable(l, windowSize, policy) && !TakesAllQueued(l) && Lost(l)
  {
    var full := SendMany(windowSize, policy, 65);
    ReachableInv(full, windowSize, policy);
    var newest := Frame(64, full.sent[64]);
    ReachableStep(full, ArriveStep(newest), windowSize, policy);
    l := Apply(full, ArriveStep(newest));
    assert l.receiver.filter.max == 64;
    assert l.sender.queue[0].frame.seqNo == 0 && 0 !in l.seen.values;
    assert !Admit(l.receiver.filter, 0).accepted;
  }

  /** Frame 0 was never accepted and is 64 or more behind what arrived. */
  predicate Lost(l: Link) {
    l.receiver.filter.max >= 64 && 0 !in l.seen.values
  }

  lemma LostStep(l: Link, step: Step)
    requires Inv(l) && Lost(l) && Enabled(l, step)
    ensures Lost(Apply(l, step))
  {
  }

  /** From there on, whatever happens, frame 0 stays queued and refused and nothing is ever delivered. */
  lemma {:induction false} LostForEver(states: seq<Link>, steps: seq<Step>, n: nat)
    requires Run(states, steps) && Inv(states[0]) && Lost(states[0]) && n <= |steps|
    ensures Inv(states[n]) && Lost(states[n])
    ensures var l := states[n];
            && l.delivered == [] && !Admit(l.receiver.filter, 0).accepted
            && l.sender.base == 0 && l.sender.queue != [] && l.sender.queue[0].frame.seqNo == 0
  {
    if n > 0 {
      LostForEver(states, steps, n - 1);
      StepKeeps(states[n - 1], steps[n - 1]);
      LostStep(states[n - 1], steps[n - 1]);
    }
    LostMeans(states[n]);
  }

  lemma LostMeans(l: Link)
    requires Inv(l) && Lost(l)
    ensures l.delivered == [] && !Admit(l.receiver.filter, 0).accepted
    ensures l.sender.base == 0 && l.sender.queue != [] && l.sender.queue[0].frame.seqNo == 0
  {
  }

  /** No reachable state refuses a frame the receiver still needs exactly when the window is at most 64. */
  lemma FilterFitsWindowExactly(windowSize: nat, policy: TimeoutPolicy)
    ensures (forall l :: Reachable(l, windowSize, policy) ==> TakesAllQueued(l)) <==> windowSize <= 64
  {
    if windowSize <= 64 {
      forall l | Reachable(l, windowSize, policy) ensures TakesAllQueued(l) {
        ReachableInv(l, windowSize, policy);
        SmallWindowTakesAllQueued(l);
      }
    } else {
      var l := LargeWindowRefuses(windowSize, policy);
    }
  }
}
