/** Which sequence numbers acknowledgements have named, against the sender's window and queue. */
module SenderWindow {
  import opened Words
  import opened Reliability

  /** How far `n` lies behind `from`, counting round in 64 bits. */
  function Behind(from: nat, n: nat): int {
    if n <= from then from - n else from - n + U64
  }

  /** An acknowledgement names its number and, of the 64 before it, those whose bit is set: bit 0 for the one before. */
  lemma NamesExactly(ack: AckFrame, n: nat)
    requires ack.ackedSeq < U64 && n < U64
    ensures Names(ack, 64, n) <==>
              n == ack.ackedSeq || (1 <= Behind(ack.ackedSeq, n) <= 64 && Bit(ack.ackBits, Behind(ack.ackedSeq, n) - 1))
  {
    forall i: nat | i < 64 ensures BitSeq(ack, i) == n <==> Behind(ack.ackedSeq, n) == i + 1 {
      BitSeqExactly(ack, i, n);
    }
    var d := Behind(ack.ackedSeq, n);
    if 1 <= d <= 64 && Bit(ack.ackBits, d - 1) {
      assert BitSeq(ack, d - 1) == n;
    }
  }

  lemma BitSeqExactly(ack: AckFrame, i: nat, n: nat)
    requires ack.ackedSeq < U64 && n < U64 && i < 64
    ensures BitSeq(ack, i) == n <==> Behind(ack.ackedSeq, n) == i + 1
  {
  }

  /** The numbers an acknowledgement names among the first `count`. */
  function NamedBy(ack: AckFrame, count: nat): set<nat> {
    set n: nat | n < count && Names(ack, 64, n)
  }

  /** Everything below the base was named, the base was not, and marked in the queue is exactly what was named. */
  ghost predicate NamedOk(s: Sender, named: set<nat>) {
    && SenderOk(s)
    && (forall n :: n in named ==> n < s.nextSeq)
    && (forall n: nat :: n < s.base ==> n in named)
    && (forall k :: 0 <= k < |s.queue| ==> (s.queue[k].state.Acked? <==> s.base + k in named))
    && s.base !in named
  }

  lemma SendNames(s: Sender, payload: Bytes, now: nat, named: set<nat>)
    requires NamedOk(s, named) && s.nextSeq + 1 < U64
    ensures NamedOk(Send(s, payload, now).1, named)
  {
  }

  lemma {:induction false} PrefixStops(queue: seq<Entry>)
    ensures forall k :: 0 <= k < AckedPrefix(queue) ==> queue[k].state.Acked?
    ensures AckedPrefix(queue) < |queue| ==> !queue[AckedPrefix(queue)].state.Acked?
  {
    if queue != [] && queue[0].state.Acked? {
      PrefixStops(queue[1..]);
      forall k | 0 <= k < AckedPrefix(queue) ensures queue[k].state.Acked? {
        if k > 0 { assert queue[1..][k - 1].state.Acked?; }
      }
    }
  }

  /** Marking what is named. */
  lemma MarkNames(s: Sender, ack: AckFrame, named: set<nat>, k: nat)
    requires NamedOk(s, named) && k < |s.queue|
    ensures MarkNamed(s.queue, ack, 64)[k].state.Acked? <==> s.base + k in named + NamedBy(ack, s.nextSeq)
  {
    assert s.queue[k].frame.seqNo == s.base + k;
  }

  /** Sliding past what is marked. */
  lemma {:induction false} AckNames(s: Sender, ack: AckFrame, named: set<nat>)
    requires NamedOk(s, named)
    ensures NamedOk(Acknowledge(s, ack), named + NamedBy(ack, s.nextSeq))
  {
    AllMarked(s, ack, named);
    SlidMarked(s, MarkNamed(s.queue, ack, 64), named + NamedBy(ack, s.nextSeq));
  }

  lemma {:induction false} SlidMarked(s: Sender, marked: seq<Entry>, all: set<nat>)
    requires SenderOk(s) && MarksMatch(s, marked, all)
    ensures NamedOk(s.(base := s.base + AckedPrefix(marked), queue := marked[AckedPrefix(marked)..]), all)
  {
    PrefixStops(marked);
    SlideNames(s, marked, AckedPrefix(marked), all);
  }

  ghost predicate MarksMatch(s: Sender, marked: seq<Entry>, all: set<nat>) {
    && |marked| == |s.queue|
    && (forall k :: 0 <= k < |marked| ==> marked[k].frame == s.queue[k].frame)
    && (forall k :: 0 <= k < |marked| ==> (marked[k].state.Acked? <==> s.base + k in all))
    && (forall x :: x in all ==> x < s.nextSeq) && (forall x: nat :: x < s.base ==> x in all)
  }

  lemma {:induction false} AllMarked(s: Sender, ack: AckFrame, named: set<nat>)
    requires NamedOk(s, named)
    ensures MarksMatch(s, MarkNamed(s.queue, ack, 64), named + NamedBy(ack, s.nextSeq))
  {
    forall k | 0 <= k < |s.queue|
      ensures MarkNamed(s.queue, ack, 64)[k].state.Acked? <==> s.base + k in named + NamedBy(ack, s.nextSeq)
    {
      MarkNames(s, ack, named, k);
    }
  }

  lemma SlideNames(s: Sender, marked: seq<Entry>, n: nat, all: set<nat>)
    requires SenderOk(s) && n <= |marked| && MarksMatch(s, marked, all)
    requires (forall k :: 0 <= k < n ==> marked[k].state.Acked?) && (n < |marked| ==> !marked[n].state.Acked?)
    ensures NamedOk(s.(base := s.base + n, queue := marked[n..]), all)
  {
    forall x: nat | x < s.base + n ensures x in all {
      if x >= s.base { assert marked[x - s.base].state.Acked?; }
    }
    assert s.base + n !in all || s.base + n < s.nextSeq;
  }

  /** Timing out and re-arming entries. */
  lemma SameNames(s: Sender, s': Sender, named: set<nat>)
    requires NamedOk(s, named) && s' == s.(queue := s'.queue) && |s'.queue| == |s.queue|
    requires forall k :: 0 <= k < |s.queue| ==>
               s'.queue[k].frame == s.queue[k].frame && (s'.queue[k].state.Acked? <==> s.queue[k].state.Acked?)
    ensures NamedOk(s', named)
  {
  }

  /** A number that is not named while every smaller one is. */
  ghost predicate LeastUnnamed(named: set<nat>, n: nat) {
    n !in named && forall m: nat :: m < n ==> m in named
  }

  /** Whatever is the least number not named is the base, and a send is refused exactly when a whole window lies
      between it and the next number. */
  lemma WindowIsExact(s: Sender, named: set<nat>, payload: Bytes, now: nat, least: nat)
    requires NamedOk(s, named) && LeastUnnamed(named, least)
    ensures least == s.base
    ensures Send(s, payload, now).0 == if s.nextSeq - least >= s.windowSize then WindowFull else Sent(Frame(s.nextSeq, payload))
  {
    assert least >= s.base && s.base >= least;
  }

  /** An acknowledgement that names everything still unnamed empties the queue and reopens the whole window. */
  lemma {:induction false} AllNamedReopens(s: Sender, named: set<nat>, ack: AckFrame)
    requires NamedOk(s, named) && forall n: nat :: n < s.nextSeq && n !in named ==> Names(ack, 64, n)
    ensures var s' := Acknowledge(s, ack);
            s'.queue == [] && s'.base == s.nextSeq && WindowAvailable(s') == s.windowSize
  {
    AckNames(s, ack, named);
    var s', all := Acknowledge(s, ack), named + NamedBy(ack, s.nextSeq);
    assert s'.base !in all && (s'.base < s.nextSeq ==> s'.base in all);
  }
}

/** Whole runs of the sender under a clock that never goes back, against any acknowledgements at all: what is
    emitted, how often and when. `sent` are the payloads taken, `named` the numbers named since they were sent,
    `late` those found overdue and not emitted again since.
 */
module SenderRuns {
  import opened Words
  import opened Reliability
  import opened SenderWindow

  datatype Emission = Emission(frame: Frame, at: nat)

  datatype Sending = Sending(sender: Sender, sent: seq<Bytes>, named: set<nat>, late: set<nat>, clock: nat, emissions: seq<Emission>)

  datatype Step =
    | SendStep(now: nat, payload: Bytes)
    | AckStep(now: nat, ack: AckFrame)
    | TimeoutStep(now: nat)
    | RetransmitStep(now: nat)

  function NewSending(windowSize: nat, policy: TimeoutPolicy): Sending {
    Sending(NewSender(windowSize, policy), [], {}, {}, 0, [])
  }

  predicate Enabled(w: Sending, step: Step) {
    w.clock <= step.now && (step.SendStep? ==> |w.sent| + 1 < U64)
  }

  function Each(frames: seq<Frame>, now: nat): (r: seq<Emission>)
    ensures |r| == |frames|
  {
    seq(|frames|, k requires 0 <= k < |frames| => Emission(frames[k], now))
  }

  /** Newly overdue: sent, not named, not found so before, and last emitted at least a timeout ago. */
  predicate Overdue(w: Sending, now: nat, n: nat) {
    && n < |w.sent| && n !in w.named && n !in w.late
    && SaturatingSub(now, LastAt(w.emissions, n)) >= w.sender.policy.rto
  }

  /** Due for another attempt: found overdue, not named, and attempts left. */
  predicate DueAgain(w: Sending, n: nat) {
    n in w.late && n !in w.named && Count(w.emissions, n) <= w.sender.policy.maxRetransmissions
  }

  function Apply(w: Sending, step: Step): Sending {
    match step
    case SendStep(now, payload) =>
      var (r, s) := Send(w.sender, payload, now);
      if r.WindowFull? then w.(clock := now)
      else w.(sender := s, clock := now, sent := w.sent + [payload], emissions := w.emissions + [Emission(r.frame, now)])
    case AckStep(now, ack) =>
      w.(sender := Acknowledge(w.sender, ack), clock := now, named := w.named + NamedBy(ack, |w.sent|))
    case TimeoutStep(now) =>
      w.(sender := MarkTimeout(w.sender, now), clock := now, late := w.late + set n: nat | n < |w.sent| && Overdue(w, now, n))
    case RetransmitStep(now) =>
      w.(sender := Retransmit(w.sender, now), clock := now, late := w.late - (set n | n in w.late && DueAgain(w, n)),
         emissions := w.emissions + Each(Retransmitted(w.sender.queue, w.sender.policy), now))
  }

  ghost predicate Run(states: seq<Sending>, steps: seq<Step>) {
    && |states| == |steps| + 1
    && states[0] == NewSending(states[0].sender.windowSize, states[0].sender.policy)
    && forall k {:trigger steps[k]} :: 0 <= k < |steps| ==>
         Enabled(states[k], steps[k]) && states[k + 1] == Apply(states[k], steps[k])
  }

  // ---------- How often and when a number was emitted ----------

  function Count(emissions: seq<Emission>, n: nat): nat {
    if emissions == [] then 0
    else Count(emissions[..|emissions| - 1], n) + if emissions[|emissions| - 1].frame.seqNo == n then 1 else 0
  }

  function LastAt(emissions: seq<Emission>, n: nat): nat {
    if emissions == [] then 0
    else if emissions[|emissions| - 1].frame.seqNo == n then emissions[|emissions| - 1].at
    else LastAt(emissions[..|emissions| - 1], n)
  }

  lemma {:induction false} CountSnoc(emissions: seq<Emission>, e: Emission, n: nat)
    ensures Count(emissions + [e], n) == Count(emissions, n) + if e.frame.seqNo == n then 1 else 0
    ensures LastAt(emissions + [e], n) == if e.frame.seqNo == n then e.at else LastAt(emissions, n)
  {
    assert (emissions + [e])[..|emissions|] == emissions;
  }

  /** The retransmission of one queue entry after another. */
  lemma {:induction false} RetransmitCounts(emissions: seq<Emission>, queue: seq<Entry>, base: nat, policy: TimeoutPolicy, now: nat, n: nat)
    requires forall k :: 0 <= k < |queue| ==> queue[k].frame.seqNo == base + k
    ensures var again := base <= n < base + |queue| && Retries(queue[n - base], policy);
            var all := emissions + Each(Retransmitted(queue, policy), now);
            && Count(all, n) == Count(emissions, n) + (if again then 1 else 0)
            && LastAt(all, n) == if again then now else LastAt(emissions, n)
  {
    if queue == [] {
      assert emissions + Each(Retransmitted(queue, policy), now) == emissions;
    } else {
      var init, last := queue[..|queue| - 1], queue[|queue| - 1];
      RetransmitCounts(emissions, init, base, policy, now, n);
      var before := emissions + Each(Retransmitted(init, policy), now);
      RetransmitLast(emissions, queue, policy, now);
      if Retries(last, policy) { CountSnoc(before, Emission(last.frame, now), n); }
    }
  }

  /** The last entry of the queue comes last, if it is retransmitted. */
  lemma {:induction false} RetransmitLast(emissions: seq<Emission>, queue: seq<Entry>, policy: TimeoutPolicy, now: nat)
    requires queue != []
    ensures var init, last := queue[..|queue| - 1], queue[|queue| - 1];
            emissions + Each(Retransmitted(queue, policy), now) ==
              if Retries(last, policy) then emissions + Each(Retransmitted(init, policy), now) + [Emission(last.frame, now)]
              else emissions + Each(Retransmitted(init, policy), now)
  {
    var init, last := queue[..|queue| - 1], queue[|queue| - 1];
    if !Retries(last, policy) { assert Retransmitted(queue, policy) == Retransmitted(init, policy); }
  }

  // ---------- Invariant ----------

  /** A queued entry against the record of emissions. */
  predicate EntryOk(e: Entry, n: nat, w: Sending) {
    && n < |w.sent| && e.frame == Frame(n, w.sent[n])
    && Count(w.emissions, n) == e.retransmissions + 1 <= w.sender.policy.maxRetransmissions + 1
    && LastAt(w.emissions, n) == e.sentAt <= w.clock
    && (e.state.TimedOut? <==> n in w.late && n !in w.named)
    && (n in w.late ==> w.clock - e.sentAt >= w.sender.policy.rto)
  }

  ghost predicate Queued(w: Sending) {
    forall k :: 0 <= k < |w.sender.queue| ==> EntryOk(w.sender.queue[k], w.sender.base + k, w)
  }

  ghost predicate Bounded(w: Sending) {
    && (forall n: nat :: Count(w.emissions, n) <= w.sender.policy.maxRetransmissions + 1)
    && (forall n: nat :: n >= |w.sent| ==> Count(w.emissions, n) == 0)
  }

  ghost predicate Inv(w: Sending) {
    && NamedOk(w.sender, w.named) && w.sender.nextSeq == |w.sent| && Queued(w) && Bounded(w)
    && (forall n :: n in w.late ==> n < |w.sent|)
  }

  lemma {:induction false} SendKeeps(w: Sending, now: nat, payload: Bytes)
    requires Inv(w) && Enabled(w, SendStep(now, payload))
    ensures Inv(Apply(w, SendStep(now, payload)))
  {
    SendNames(w.sender, payload, now, w.named);
    var w' := Apply(w, SendStep(now, payload));
    if WindowAvailable(w.sender) > 0 {
      var e := Emission(Frame(|w.sent|, payload), now);
      forall n: nat
        ensures Count(w'.emissions, n) == Count(w.emissions, n) + if n == |w.sent| then 1 else 0
        ensures LastAt(w'.emissions, n) == if n == |w.sent| then now else LastAt(w.emissions, n)
      {
        CountSnoc(w.emissions, e, n);
      }
      forall k | 0 <= k < |w'.sender.queue| ensures EntryOk(w'.sender.queue[k], w'.sender.base + k, w') {
        if k < |w.sender.queue| { assert EntryOk(w.sender.queue[k], w.sender.base + k, w); }
      }
    } else {
      LaterQueued(w, now);
    }
  }

  lemma LaterQueued(w: Sending, now: nat)
    requires Queued(w) && w.clock <= now
    ensures Queued(w.(clock := now))
  {
    forall k | 0 <= k < |w.sender.queue| ensures EntryOk(w.sender.queue[k], w.sender.base + k, w.(clock := now)) {
      assert EntryOk(w.sender.queue[k], w.sender.base + k, w);
    }
  }

  lemma {:induction false} AckKeeps(w: Sending, now: nat, ack: AckFrame)
    requires Inv(w) && w.clock <= now
    ensures Inv(Apply(w, AckStep(now, ack)))
  {
    AckNames(w.sender, ack, w.named);
    var w' := Apply(w, AckStep(now, ack));
    forall k | 0 <= k < |w'.sender.queue| ensures EntryOk(w'.sender.queue[k], w'.sender.base + k, w') {
      AckEntry(w.sender, ack, k);
      AckedEntryOk(w, w', k);
    }
  }

  lemma {:induction false} AckedEntryOk(w: Sending, w': Sending, k: nat)
    requires Queued(w) && w.clock <= w'.clock && k < |w'.sender.queue|
    requires w'.sent == w.sent && w'.emissions == w.emissions && w'.late == w.late && w'.sender.policy == w.sender.policy
    requires NamedOk(w.sender, w.named) && NamedOk(w'.sender, w'.named)
    requires var j := w'.sender.base - w.sender.base + k;
             && 0 <= j < |w.sender.queue|
             && (w'.sender.queue[k] == w.sender.queue[j] || w'.sender.queue[k] == w.sender.queue[j].(state := Acked))
    ensures EntryOk(w'.sender.queue[k], w'.sender.base + k, w')
  {
    var j := w'.sender.base - w.sender.base + k;
    assert EntryOk(w.sender.queue[j], w.sender.base + j, w);
  }

  /** An entry still queued after an acknowledgement is the one queued before, possibly marked. */
  lemma {:induction false} AckEntry(s: Sender, ack: AckFrame, k: nat)
    requires k < |Acknowledge(s, ack).queue|
    ensures var s' := Acknowledge(s, ack);
            var j := s'.base - s.base + k;
            && 0 <= j < |s.queue|
            && (s'.queue[k] == s.queue[j] || s'.queue[k] == s.queue[j].(state := Acked))
  {
  }

  lemma {:induction false} TimeoutKeeps(w: Sending, now: nat)
    requires Inv(w) && w.clock <= now
    ensures Inv(Apply(w, TimeoutStep(now)))
  {
    var w' := Apply(w, TimeoutStep(now));
    SameNames(w.sender, w'.sender, w.named);
    forall k | 0 <= k < |w'.sender.queue| ensures EntryOk(w'.sender.queue[k], w'.sender.base + k, w') {
      assert EntryOk(w.sender.queue[k], w.sender.base + k, w);
    }
  }

  lemma {:induction false} RetransmitKeeps(w: Sending, now: nat)
    requires Inv(w) && w.clock <= now
    ensures Inv(Apply(w, RetransmitStep(now)))
  {
    var w' := Apply(w, RetransmitStep(now));
    SameNames(w.sender, w'.sender, w.named);
    forall n: nat
      ensures Count(w'.emissions, n) <= w.sender.policy.maxRetransmissions + 1
      ensures n >= |w.sent| ==> Count(w'.emissions, n) == 0
    {
      RetransmitBounded(w, now, n);
    }
    forall k | 0 <= k < |w.sender.queue| ensures EntryOk(w'.sender.queue[k], w.sender.base + k, w') {
      RetransmitEntry(w, now, k);
    }
  }

  lemma {:induction false} RetransmitBounded(w: Sending, now: nat, n: nat)
    requires Inv(w)
    ensures var all := w.emissions + Each(Retransmitted(w.sender.queue, w.sender.policy), now);
            Count(all, n) <= w.sender.policy.maxRetransmissions + 1 && (n >= |w.sent| ==> Count(all, n) == 0)
  {
    var s := w.sender;
    RetransmitCounts(w.emissions, s.queue, s.base, s.policy, now, n);
    if s.base <= n < s.base + |s.queue| { assert EntryOk(s.queue[n - s.base], s.base + (n - s.base), w); }
  }

  lemma {:induction false} RetransmitEntry(w: Sending, now: nat, k: nat)
    requires Inv(w) && w.clock <= now && k < |w.sender.queue|
    ensures var w' := Apply(w, RetransmitStep(now)); EntryOk(w'.sender.queue[k], w.sender.base + k, w')
  {
    var s := w.sender;
    assert EntryOk(s.queue[k], s.base + k, w);
    RetransmitCounts(w.emissions, s.queue, s.base, s.policy, now, s.base + k);
  }

  lemma {:induction false} StepKeeps(w: Sending, step: Step)
    requires Inv(w) && Enabled(w, step)
    ensures Inv(Apply(w, step))
    ensures Apply(w, step).sender.windowSize == w.sender.windowSize && Apply(w, step).sender.policy == w.sender.policy
  {
    match step
    case SendStep(now, payload) => SendKeeps(w, now, payload);
    case AckStep(now, ack) => AckKeeps(w, now, ack);
    case TimeoutStep(now) => TimeoutKeeps(w, now);
    case RetransmitStep(now) => RetransmitKeeps(w, now);
  }

  lemma {:induction false} RunKeeps(states: seq<Sending>, steps: seq<Step>, n: nat)
    requires Run(states, steps) && n <= |steps|
    ensures Inv(states[n])
    ensures states[n].sender.windowSize == states[0].sender.windowSize && states[n].sender.policy == states[0].sender.policy
  {
    if n > 0 {
      RunKeeps(states, steps, n - 1);
      StepKeeps(states[n - 1], steps[n - 1]);
    }
  }

  // ---------- Main results ----------

  /** Over every run the base is the least number that no acknowledgement has named since it was sent, and a send is
      refused if and only if a whole window lies between it and the next number. */
  lemma SendRefusedExactly(states: seq<Sending>, steps: seq<Step>, n: nat, least: nat, payload: Bytes, now: nat)
    requires Run(states, steps) && n <= |steps| && LeastUnnamed(states[n].named, least)
    ensures var w := states[n];
            && w.sender.base == least <= |w.sent|
            && Send(w.sender, payload, now).0 ==
                 if |w.sent| - least >= w.sender.windowSize then WindowFull else Sent(Frame(|w.sent|, payload))
  {
    RunKeeps(states, steps, n);
    WindowIsExact(states[n].sender, states[n].named, payload, now, least);
  }

  /** Main result: over every run a timeout lists exactly the numbers newly overdue by the record, in order. */
  lemma {:induction false} TimeoutExactly(states: seq<Sending>, steps: seq<Step>, k: nat, now: nat)
    requires Run(states, steps) && k <= |steps| && states[k].clock <= now
    ensures var w := states[k];
            var listed := OverdueNumbers(w.sender.queue, w.sender.policy.rto, now);
            && (forall n: nat :: n in listed <==> Overdue(w, now, n))
            && (forall i, j :: 0 <= i < j < |listed| ==> listed[i] < listed[j])
  {
    RunKeeps(states, steps, k);
    var w := states[k];
    var listed := OverdueNumbers(w.sender.queue, w.sender.policy.rto, now);
    ListedExactly(w.sender.queue, w.sender.base, w.sender.policy.rto, now);
    forall n: nat ensures n in listed <==> Overdue(w, now, n) { OverdueIsListed(w, now, n); }
  }

  lemma {:induction false} OverdueIsListed(w: Sending, now: nat, n: nat)
    requires Inv(w) && w.clock <= now
    ensures var s := w.sender;
            Overdue(w, now, n) <==> s.base <= n < s.base + |s.queue| && Expires(s.queue[n - s.base], s.policy.rto, now)
  {
    var s := w.sender;
    if s.base <= n < s.base + |s.queue| { assert EntryOk(s.queue[n - s.base], s.base + (n - s.base), w); }
  }

  ghost predicate Increasing(ns: seq<nat>, bound: nat) {
    && (forall i :: 0 <= i < |ns| ==> ns[i] < bound)
    && (forall i, j :: 0 <= i < j < |ns| ==> ns[i] < ns[j])
  }

  lemma IncreasingSnoc(ns: seq<nat>, n: nat)
    requires Increasing(ns, n)
    ensures Increasing(ns + [n], n + 1)
  {
  }

  lemma {:induction false} ListedExactly(queue: seq<Entry>, base: nat, rto: nat, now: nat)
    requires forall k :: 0 <= k < |queue| ==> queue[k].frame.seqNo == base + k
    ensures Increasing(OverdueNumbers(queue, rto, now), base + |queue|)
    ensures forall n: nat :: n in OverdueNumbers(queue, rto, now) <==>
              base <= n < base + |queue| && Expires(queue[n - base], rto, now)
  {
    if queue != [] {
      var init, last := queue[..|queue| - 1], queue[|queue| - 1];
      ListedExactly(init, base, rto, now);
      var before := OverdueNumbers(init, rto, now);
      if Expires(last, rto, now) {
        IncreasingSnoc(before, base + |init|);
        assert OverdueNumbers(queue, rto, now) == before + [base + |init|];
      } else {
        assert OverdueNumbers(queue, rto, now) == before;
      }
    }
  }

  /** Main result: over every run a retransmission emits exactly the frames that are due by the record, in order of
      their numbers, each with the payload sent under it. */
  lemma {:induction false} RetransmitExactly(states: seq<Sending>, steps: seq<Step>, k: nat)
    requires Run(states, steps) && k <= |steps|
    ensures var w := states[k];
            var again := Retransmitted(w.sender.queue, w.sender.policy);
            && (forall n: nat :: DueAgain(w, n) <==> n < |w.sent| && Frame(n, w.sent[n]) in again)
            && (forall f :: f in again ==> f.seqNo < |w.sent| && f.payload == w.sent[f.seqNo])
            && (forall i, j :: 0 <= i < j < |again| ==> again[i].seqNo < again[j].seqNo)
  {
    RunKeeps(states, steps, k);
    var w := states[k];
    var again := Retransmitted(w.sender.queue, w.sender.policy);
    RetransmittedInOrder(w.sender.queue, w.sender.base, w.sender.policy);
    forall f | f in again ensures f.seqNo < |w.sent| && f.payload == w.sent[f.seqNo] {
      var i := RetransmittedFrom(w.sender.queue, w.sender.policy, f);
      assert EntryOk(w.sender.queue[i], w.sender.base + i, w);
    }
    forall n: nat ensures DueAgain(w, n) <==> n < |w.sent| && Frame(n, w.sent[n]) in again { DueIsRetried(w, n); }
  }

  lemma {:induction false} DueIsRetried(w: Sending, n: nat)
    requires Inv(w)
    ensures DueAgain(w, n) <==>
              n < |w.sent| && Frame(n, w.sent[n]) in Retransmitted(w.sender.queue, w.sender.policy)
  {
    var s := w.sender;
    var again := Retransmitted(s.queue, s.policy);
    if s.base <= n < |w.sent| {
      var k := n - s.base;
      assert EntryOk(s.queue[k], s.base + k, w);
      assert DueAgain(w, n) <==> Retries(s.queue[k], s.policy);
      if Retries(s.queue[k], s.policy) { RetransmittedHas(s.queue, s.policy, k); }
    }
    if n < |w.sent| && Frame(n, w.sent[n]) in again {
      var i := RetransmittedFrom(s.queue, s.policy, Frame(n, w.sent[n]));
      assert s.queue[i].frame.seqNo == s.base + i;
    }
  }

  lemma {:induction false} RetransmittedHas(queue: seq<Entry>, policy: TimeoutPolicy, k: nat)
    requires k < |queue| && Retries(queue[k], policy)
    ensures queue[k].frame in Retransmitted(queue, policy)
  {
    if k < |queue| - 1 { RetransmittedHas(queue[..|queue| - 1], policy, k); }
  }

  lemma {:induction false} RetransmittedFrom(queue: seq<Entry>, policy: TimeoutPolicy, f: Frame) returns (k: nat)
    requires f in Retransmitted(queue, policy)
    ensures k < |queue| && queue[k].frame == f && Retries(queue[k], policy)
  {
    var init := queue[..|queue| - 1];
    if f in Retransmitted(init, policy) { k := RetransmittedFrom(init, policy, f); } else { k := |queue| - 1; }
  }

  ghost predicate Rising(frames: seq<Frame>, bound: nat) {
    && (forall i :: 0 <= i < |frames| ==> frames[i].seqNo < bound)
    && (forall i, j :: 0 <= i < j < |frames| ==> frames[i].seqNo < frames[j].seqNo)
  }

  lemma RisingSnoc(frames: seq<Frame>, f: Frame, bound: nat)
    requires Rising(frames, bound) && f.seqNo == bound
    ensures Rising(frames + [f], bound + 1)
  {
  }

  lemma {:induction false} RetransmittedInOrder(queue: seq<Entry>, base: nat, policy: TimeoutPolicy)
    requires forall k :: 0 <= k < |queue| ==> queue[k].frame.seqNo == base + k
    ensures Rising(Retransmitted(queue, policy), base + |queue|)
  {
    if queue != [] {
      var init, last := queue[..|queue| - 1], queue[|queue| - 1];
      RetransmittedInOrder(init, base, policy);
      var before := Retransmitted(init, policy);
      if Retries(last, policy) {
        RisingSnoc(before, last.frame, base + |init|);
        assert Retransmitted(queue, policy) == before + [last.frame];
      } else {
        assert Retransmitted(queue, policy) == before;
      }
    }
  }

  /** No number is ever emitted more often than once and then as often as the policy allows. */
  lemma {:induction false} AttemptsBounded(states: seq<Sending>, steps: seq<Step>, k: nat, n: nat)
    requires Run(states, steps) && k <= |steps|
    ensures Count(states[k].emissions, n) <= states[0].sender.policy.maxRetransmissions + 1
  {
    RunKeeps(states, steps, k);
  }

  // ---------- Attempts are a timeout apart ----------

  ghost predicate Spaced(emissions: seq<Emission>, rto: nat, clock: nat) {
    && (forall j :: 0 <= j < |emissions| ==> emissions[j].at <= clock)
    && (forall i, j :: 0 <= i < j < |emissions| && emissions[i].frame.seqNo == emissions[j].frame.seqNo ==>
          emissions[j].at - emissions[i].at >= rto)
  }

  lemma {:induction false} EarlierThanLast(emissions: seq<Emission>, rto: nat, clock: nat, i: nat)
    requires Spaced(emissions, rto, clock) && i < |emissions|
    ensures emissions[i].at <= LastAt(emissions, emissions[i].frame.seqNo)
  {
    if i < |emissions| - 1 {
      var init := emissions[..|emissions| - 1];
      assert Spaced(init, rto, clock);
      EarlierThanLast(init, rto, clock, i);
    }
  }

  lemma {:induction false} SpacedSnoc(emissions: seq<Emission>, rto: nat, clock: nat, e: Emission)
    requires Spaced(emissions, rto, clock) && clock <= e.at
    requires Count(emissions, e.frame.seqNo) == 0 || e.at - LastAt(emissions, e.frame.seqNo) >= rto
    ensures Spaced(emissions + [e], rto, e.at)
  {
    forall i | 0 <= i < |emissions| && emissions[i].frame.seqNo == e.frame.seqNo ensures e.at - emissions[i].at >= rto {
      EarlierThanLast(emissions, rto, clock, i);
      Counts(emissions, i);
    }
  }

  lemma {:induction false} Counts(emissions: seq<Emission>, i: nat)
    requires i < |emissions|
    ensures Count(emissions, emissions[i].frame.seqNo) > 0
  {
    if i < |emissions| - 1 { Counts(emissions[..|emissions| - 1], i); }
  }

  lemma {:induction false} SpacedRetransmit(w: Sending, queue: seq<Entry>, now: nat)
    requires Queued(w) && SenderOk(w.sender) && w.clock <= now && queue <= w.sender.queue
    requires Spaced(w.emissions, w.sender.policy.rto, w.clock)
    ensures Spaced(w.emissions + Each(Retransmitted(queue, w.sender.policy), now), w.sender.policy.rto, now)
  {
    var policy := w.sender.policy;
    if queue == [] {
      assert w.emissions + Each(Retransmitted(queue, policy), now) == w.emissions;
    } else {
      var init, k := queue[..|queue| - 1], |queue| - 1;
      SpacedRetransmit(w, init, now);
      var before := w.emissions + Each(Retransmitted(init, policy), now);
      RetransmitLast(w.emissions, queue, policy, now);
      if Retries(queue[k], policy) {
        assert EntryOk(w.sender.queue[k], w.sender.base + k, w);
        RetransmitCounts(w.emissions, init, w.sender.base, policy, now, w.sender.base + k);
        SpacedSnoc(before, policy.rto, now, Emission(queue[k].frame, now));
      }
    }
  }

  lemma {:induction false} SpacedStep(w: Sending, step: Step)
    requires Inv(w) && Enabled(w, step) && Spaced(w.emissions, w.sender.policy.rto, w.clock)
    ensures Spaced(Apply(w, step).emissions, w.sender.policy.rto, step.now)
  {
    match step
    case SendStep(now, payload) =>
      if WindowAvailable(w.sender) > 0 {
        SpacedSnoc(w.emissions, w.sender.policy.rto, w.clock, Emission(Frame(|w.sent|, payload), now));
      }
    case AckStep(_, _) =>
    case TimeoutStep(_) =>
    case RetransmitStep(now) => SpacedRetransmit(w, w.sender.queue, now);
  }

  /** Any two attempts at the same number lie at least a timeout apart. */
  lemma {:induction false} AttemptsSpaced(states: seq<Sending>, steps: seq<Step>, n: nat)
    requires Run(states, steps) && n <= |steps|
    ensures Spaced(states[n].emissions, states[0].sender.policy.rto, states[n].clock)
  {
    if n > 0 {
      AttemptsSpaced(states, steps, n - 1);
      RunKeeps(states, steps, n - 1);
      SpacedStep(states[n - 1], steps[n - 1]);
    }
  }
}
