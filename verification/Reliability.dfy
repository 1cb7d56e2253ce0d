/** Reliable delivery: the sliding-window sender, the duplicate filter, the ordered assembler and the
    receiver that combines them. Values and functions first; the objects that update in place follow
    in `ReliabilityObjects`, each method proved to compute the function of the same name.
 */
module Reliability {
  import opened Words
  import opened ReplayWindow

  /** `SequenceNumber::next`: wraps in 64 bits. */
  function Next(n: nat): nat {
    (n + 1) % U64
  }

  datatype Frame = Frame(seqNo: nat, payload: Bytes)

  datatype DeliveryState = Pending | Acked | TimedOut

  datatype Entry = Entry(frame: Frame, sentAt: nat, retransmissions: nat, state: DeliveryState)

  datatype TimeoutPolicy = TimeoutPolicy(rto: nat, maxRetransmissions: nat)

  datatype AckFrame = AckFrame(ackedSeq: nat, ackBits: nat)

  // ---------- Sender ----------

  datatype Sender = Sender(base: nat, nextSeq: nat, windowSize: nat, queue: seq<Entry>, policy: TimeoutPolicy)

  function NewSender(windowSize: nat, policy: TimeoutPolicy): Sender {
    Sender(0, 0, windowSize, [], policy)
  }

  /** The queue holds exactly the sequence numbers from `base` up to `nextSeq`. */
  ghost predicate SenderOk(s: Sender) {
    && s.base + |s.queue| == s.nextSeq < U64
    && (forall k :: 0 <= k < |s.queue| ==> s.queue[k].frame.seqNo == s.base + k)
  }

  function WindowAvailable(s: Sender): nat {
    SaturatingSub(s.windowSize, SaturatingSub(s.nextSeq, s.base))
  }

  datatype SendResult = WindowFull | Sent(frame: Frame)

  function Send(s: Sender, payload: Bytes, now: nat): (SendResult, Sender) {
    if WindowAvailable(s) == 0 then (WindowFull, s)
    else
      var frame := Frame(s.nextSeq, payload);
      (Sent(frame), s.(nextSeq := Next(s.nextSeq), queue := s.queue + [Entry(frame, now, 0, Pending)]))
  }

  /** The sequence number that bit `i` of a selective acknowledgement stands for. */
  function BitSeq(ack: AckFrame, i: nat): nat
    requires i < 64
  {
    (ack.ackedSeq + U64 - (i + 1)) % U64
  }

  /** The acknowledgement names `n`, looking at the first `bits` bits of the mask. */
  predicate Names(ack: AckFrame, bits: nat, n: nat)
    requires bits <= 64
  {
    n == ack.ackedSeq || exists i: nat :: i < bits && Bit(ack.ackBits, i) && BitSeq(ack, i) == n
  }

  function MarkNamed(queue: seq<Entry>, ack: AckFrame, bits: nat): (r: seq<Entry>)
    requires bits <= 64
    ensures |r| == |queue|
  {
    seq(|queue|, k requires 0 <= k < |queue| =>
      if Names(ack, bits, queue[k].frame.seqNo) then queue[k].(state := Acked) else queue[k])
  }

  /** How many entries at the front of the queue are acknowledged. */
  function AckedPrefix(queue: seq<Entry>): (n: nat)
    ensures n <= |queue|
  {
    if queue != [] && queue[0].state.Acked? then 1 + AckedPrefix(queue[1..]) else 0
  }

  function Acknowledge(s: Sender, ack: AckFrame): Sender {
    var marked := MarkNamed(s.queue, ack, 64);
    var n := AckedPrefix(marked);
    s.(base := s.base + n, queue := marked[n..])
  }

  predicate Expires(e: Entry, rto: nat, now: nat) {
    e.state.Pending? && SaturatingSub(now, e.sentAt) >= rto
  }

  function MarkTimeout(s: Sender, now: nat): Sender {
    s.(queue := seq(|s.queue|, k requires 0 <= k < |s.queue| =>
      if Expires(s.queue[k], s.policy.rto, now) then s.queue[k].(state := TimedOut) else s.queue[k]))
  }

  /** The numbers a timeout lists, in queue order. */
  function OverdueNumbers(queue: seq<Entry>, rto: nat, now: nat): seq<nat> {
    if queue == [] then []
    else OverdueNumbers(queue[..|queue| - 1], rto, now) +
         (if Expires(queue[|queue| - 1], rto, now) then [queue[|queue| - 1].frame.seqNo] else [])
  }

  predicate Retries(e: Entry, policy: TimeoutPolicy) {
    e.state.TimedOut? && e.retransmissions < policy.maxRetransmissions
  }

  function Retransmit(s: Sender, now: nat): Sender {
    s.(queue := seq(|s.queue|, k requires 0 <= k < |s.queue| =>
      if Retries(s.queue[k], s.policy)
      then Entry(s.queue[k].frame, now, s.queue[k].retransmissions + 1, Pending) else s.queue[k]))
  }

  /** The frames a retransmission emits, in queue order. */
  function Retransmitted(queue: seq<Entry>, policy: TimeoutPolicy): seq<Frame> {
    if queue == [] then []
    else Retransmitted(queue[..|queue| - 1], policy) +
         (if Retries(queue[|queue| - 1], policy) then [queue[|queue| - 1].frame] else [])
  }

  // ---------- Receiver ----------

  datatype Assembler = Assembler(nextExpected: nat, buffer: map<nat, Frame>)

  datatype Assembled = Assembled(assembler: Assembler, ready: seq<Bytes>)

  function Insert(a: Assembler, f: Frame): Assembler {
    if f.seqNo >= a.nextExpected then a.(buffer := a.buffer[f.seqNo := f]) else a
  }

  function Assemble(a: Assembler): Assembled
    decreases |a.buffer|
  {
    if a.nextExpected in a.buffer then
      var rest := Assemble(Drained(a));
      Assembled(rest.assembler, [a.buffer[a.nextExpected].payload] + rest.ready)
    else Assembled(a, [])
  }

  /** The assembler with its next expected frame removed. */
  function Drained(a: Assembler): (d: Assembler)
    requires a.nextExpected in a.buffer
    ensures |d.buffer| < |a.buffer|
  {
    assert |a.buffer - {a.nextExpected}| < |a.buffer| by {
      assert (a.buffer - {a.nextExpected}).Keys == a.buffer.Keys - {a.nextExpected};
    }
    Assembler(Next(a.nextExpected), a.buffer - {a.nextExpected})
  }

  datatype Receiver = Receiver(assembler: Assembler, filter: Window)

  const NEW_RECEIVER := Receiver(Assembler(0, map[]), FRESH)

  datatype Received = Received(receiver: Receiver, ready: seq<Bytes>)

  function Receive(r: Receiver, f: Frame): Received {
    var verdict := Admit(r.filter, f.seqNo);
    if !verdict.accepted then Received(r.(filter := verdict.next), [])
    else
      var done := Assemble(Insert(r.assembler, f));
      Received(Receiver(done.assembler, verdict.next), done.ready)
  }
}

/** The same as objects, with the loops of the implementation. */
module ReliabilityObjects {
  import opened Words
  import opened ReplayWindow
  import opened Reliability

  class DuplicateFilter {
    var maxReceived: nat
    var receivedMask: nat

    ghost function Value(): Window
      reads this
    {
      Window(maxReceived, receivedMask)
    }

    constructor ()
      ensures Value() == FRESH
    {
      maxReceived, receivedMask := 0, 0;
    }

    method CheckAndTrack(seqNo: nat) returns (duplicate: bool)
      modifies this
      ensures duplicate == !Admit(old(Value()), seqNo).accepted
      ensures Value() == Admit(old(Value()), seqNo).next
    {
      if seqNo <= maxReceived {
        var diff := maxReceived - seqNo;
        if diff >= 64 { return true; }
        if Bit(receivedMask, diff) {
          duplicate := true;
        } else {
          receivedMask := SetBit(receivedMask, diff);
          duplicate := false;
        }
      } else {
        var diff := seqNo - maxReceived;
        if diff >= 64 {
          receivedMask := 1;
        } else {
          receivedMask := SetBit(ShiftLeft(receivedMask, diff), 0);
        }
        maxReceived := seqNo;
        duplicate := false;
      }
    }
  }

  class OrderedAssembler {
    var nextExpected: nat
    var buffer: map<nat, Frame>

    ghost function Value(): Assembler
      reads this
    {
      Assembler(nextExpected, buffer)
    }

    constructor ()
      ensures Value() == Assembler(0, map[])
    {
      nextExpected, buffer := 0, map[];
    }

    method InsertFrame(frame: Frame)
      modifies this
      ensures Value() == Insert(old(Value()), frame)
    {
      if frame.seqNo >= nextExpected {
        buffer := buffer[frame.seqNo := frame];
      }
    }

    method AssembleReady() returns (ready: seq<Bytes>)
      modifies this
      ensures Value() == Assemble(old(Value())).assembler
      ensures ready == Assemble(old(Value())).ready
    {
      ready := [];
      while nextExpected in buffer
        invariant Assemble(old(Value())).assembler == Assemble(Value()).assembler
        invariant Assemble(old(Value())).ready == ready + Assemble(Value()).ready
        decreases |buffer|
      {
        ghost var before := Value();
        ghost var step := Drained(before);
        ready := ready + [buffer[nextExpected].payload];
        buffer := buffer - {nextExpected};
        nextExpected := Next(nextExpected);
        assert Value() == step;
      }
    }
  }

  class ReliableReceiver {
    const assembler: OrderedAssembler
    const filter: DuplicateFilter

    ghost function Value(): Receiver
      reads assembler, filter
    {
      Receiver(assembler.Value(), filter.Value())
    }

    constructor ()
      ensures Value() == NEW_RECEIVER && fresh(assembler) && fresh(filter)
    {
      assembler := new OrderedAssembler();
      filter := new DuplicateFilter();
    }

    method ReceiveFrame(frame: Frame) returns (ready: seq<Bytes>)
      modifies assembler, filter
      ensures Value() == Receive(old(Value()), frame).receiver
      ensures ready == Receive(old(Value()), frame).ready
    {
      var duplicate := filter.CheckAndTrack(frame.seqNo);
      if duplicate { return []; }
      assembler.InsertFrame(frame);
      ready := assembler.AssembleReady();
    }
  }

  class ReliableSender {
    var base: nat
    var nextSeq: nat
    const windowSize: nat
    var queue: seq<Entry>
    const policy: TimeoutPolicy

    ghost function Value(): Sender
      reads this
    {
      Sender(base, nextSeq, windowSize, queue, policy)
    }

    constructor (windowSize: nat, policy: TimeoutPolicy)
      ensures Value() == NewSender(windowSize, policy) && SenderOk(Value())
    {
      this.windowSize, this.policy := windowSize, policy;
      base, nextSeq, queue := 0, 0, [];
    }

    method SendPayload(payload: Bytes, now: nat) returns (r: SendResult)
      modifies this
      ensures (r, Value()) == Send(old(Value()), payload, now)
      ensures old(SenderOk(Value())) && old(nextSeq) + 1 < U64 ==> SenderOk(Value())
    {
      var unacked := SaturatingSub(nextSeq, base);
      if SaturatingSub(windowSize, unacked) == 0 { return WindowFull; }
      var frame := Frame(nextSeq, payload);
      nextSeq := Next(nextSeq);
      queue := queue + [Entry(frame, now, 0, Pending)];
      r := Sent(frame);
    }

    /** Marks the first queued entry with this sequence number, if there is one. */
    method MarkDelivered(seqNo: nat)
      requires SenderOk(Value())
      modifies this`queue
      ensures SenderOk(Value()) && |queue| == |old(queue)|
      ensures forall k :: 0 <= k < |queue| ==>
                queue[k] == if old(queue)[k].frame.seqNo == seqNo then old(queue)[k].(state := Acked) else old(queue)[k]
    {
      for k := 0 to |queue|
        invariant queue == old(queue)
        invariant forall j :: 0 <= j < k ==> queue[j].frame.seqNo != seqNo
      {
        if queue[k].frame.seqNo == seqNo {
          queue := queue[k := queue[k].(state := Acked)];
          return;
        }
      }
    }

    method AcknowledgeFrames(ack: AckFrame)
      requires SenderOk(Value())
      modifies this`queue, this`base
      ensures Value() == Acknowledge(old(Value()), ack)
      ensures SenderOk(Value())
    {
      MarkAll(ack);
      SlideBase();
    }

    /** Marks every frame the acknowledgement names. */
    method MarkAll(ack: AckFrame)
      requires SenderOk(Value())
      modifies this`queue
      ensures SenderOk(Value()) && queue == MarkNamed(old(queue), ack, 64)
    {
      MarkDelivered(ack.ackedSeq);
      MarkBits(old(queue), ack);
    }

    /** Marks the frames that the bits of the acknowledgement name. */
    method MarkBits(ghost was: seq<Entry>, ack: AckFrame)
      requires SenderOk(Value()) && queue == MarkNamed(was, ack, 0)
      modifies this`queue
      ensures SenderOk(Value()) && queue == MarkNamed(was, ack, 64)
    {
      for i := 0 to 64
        invariant SenderOk(Value())
        invariant queue == MarkNamed(was, ack, i)
      {
        ghost var before := queue;
        if Bit(ack.ackBits, i) {
          MarkDelivered(BitSeq(ack, i));
        }
        NamesOneMoreBit(was, ack, i, before, queue);
      }
    }

    /** Drops the acknowledged entries at the front of the queue and moves the window base past them. */
    method SlideBase()
      requires SenderOk(Value())
      modifies this`queue, this`base
      ensures queue == old(queue)[AckedPrefix(old(queue))..] && base == old(base) + AckedPrefix(old(queue))
      ensures SenderOk(Value())
    {
      ghost var marked := queue;
      while queue != []
        invariant |queue| <= |marked| && queue == marked[|marked| - |queue|..]
        invariant base == old(base) + (|marked| - |queue|)
        invariant AckedPrefix(marked) == (|marked| - |queue|) + AckedPrefix(queue)
        invariant SenderOk(Value())
        decreases |queue|
      {
        if queue[0].state == Acked {
          base := Next(queue[0].frame.seqNo);
          queue := queue[1..];
        } else {
          break;
        }
      }
    }

    /** Times out overdue entries and lists their sequence numbers in queue order. */
    method MarkTimeouts(now: nat) returns (timedOut: seq<nat>)
      modifies this`queue
      ensures Value() == MarkTimeout(old(Value()), now)
      ensures timedOut == OverdueNumbers(old(queue), policy.rto, now)
    {
      timedOut := [];
      for k := 0 to |queue|
        invariant |queue| == |old(queue)|
        invariant forall j :: 0 <= j < |queue| ==>
                    queue[j] == if j < k && Expires(old(queue)[j], policy.rto, now)
                                then old(queue)[j].(state := TimedOut) else old(queue)[j]
        invariant timedOut == OverdueNumbers(old(queue)[..k], policy.rto, now)
      {
        ghost var was := old(queue);
        assert was[..k + 1][..k] == was[..k];
        if queue[k].state == Pending && SaturatingSub(now, queue[k].sentAt) >= policy.rto {
          timedOut := timedOut + [queue[k].frame.seqNo];
          queue := queue[k := queue[k].(state := TimedOut)];
        }
      }
      ghost var was := old(queue);
      assert was[..|was|] == was;
    }

    /** Re-arms timed-out entries with retries left and returns their frames. */
    method RetransmitTimedOut(now: nat) returns (frames: seq<Frame>)
      modifies this`queue
      ensures Value() == Retransmit(old(Value()), now)
      ensures frames == Retransmitted(old(queue), policy)
    {
      frames := [];
      for k := 0 to |queue|
        invariant |queue| == |old(queue)|
        invariant forall j :: 0 <= j < |queue| ==>
                    queue[j] == if j < k && Retries(old(queue)[j], policy)
                                then Entry(old(queue)[j].frame, now, old(queue)[j].retransmissions + 1, Pending)
                                else old(queue)[j]
        invariant frames == Retransmitted(old(queue)[..k], policy)
      {
        ghost var was := old(queue);
        assert was[..k + 1][..k] == was[..k];
        if queue[k].state == TimedOut {
          if queue[k].retransmissions < policy.maxRetransmissions {
            frames := frames + [queue[k].frame];
            queue := queue[k := Entry(queue[k].frame, now, queue[k].retransmissions + 1, Pending)];
          }
        }
      }
      ghost var was := old(queue);
      assert was[..|was|] == was;
    }
  }

  lemma NamesOneMoreBit(queue: seq<Entry>, ack: AckFrame, i: nat, before: seq<Entry>, after: seq<Entry>)
    requires i < 64 && before == MarkNamed(queue, ack, i) && |after| == |before|
    requires forall k :: 0 <= k < |before| ==>
               after[k] == if Bit(ack.ackBits, i) && before[k].frame.seqNo == BitSeq(ack, i)
                           then before[k].(state := Acked) else before[k]
    ensures after == MarkNamed(queue, ack, i + 1)
  {
    forall k | 0 <= k < |queue| ensures after[k] == MarkNamed(queue, ack, i + 1)[k] {
      NamesStep(ack, i, queue[k].frame.seqNo);
    }
  }

  lemma NamesStep(ack: AckFrame, i: nat, n: nat)
    requires i < 64
    ensures Names(ack, i + 1, n) <==> Names(ack, i, n) || (Bit(ack.ackBits, i) && BitSeq(ack, i) == n)
  {
    if Names(ack, i + 1, n) && n != ack.ackedSeq {
      var j: nat :| j < i + 1 && Bit(ack.ackBits, j) && BitSeq(ack, j) == n;
      if j < i { assert Names(ack, i, n); }
    }
  }
}
