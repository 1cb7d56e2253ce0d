/** Byte accounting, fairness and delay of the scheduler over whole runs.

    A run interleaves enqueues, strict-priority pops and loop iterations of dequeues in any order. The
    ledger records, per stream, everything enqueued and dequeued, the number of credits given, and the
    deficit thrown away when a stream is found empty.
 */
module SchedulerFairness {
  import opened Words
  import opened Scheduler

  datatype Ledger = Ledger(
    s: Drr, enqueued: seq<seq<Bytes>>, dequeued: seq<seq<Bytes>>, credits: seq<nat>, forfeited: seq<nat>)

  function NewLedger(quantum: nat): Ledger {
    var none: seq<seq<Bytes>> := [[], [], [], [], [], [], []];
    Ledger(WithQuantum(quantum), none, none, [0, 0, 0, 0, 0, 0, 0], [0, 0, 0, 0, 0, 0, 0])
  }

  function TotalBytes(packets: seq<Bytes>): nat {
    if packets == [] then 0 else TotalBytes(packets[..|packets| - 1]) + |packets[|packets| - 1]|
  }

  lemma {:induction false} TotalBytesSnoc(packets: seq<Bytes>, p: Bytes)
    ensures TotalBytes(packets + [p]) == TotalBytes(packets) + |p|
  {
    assert (packets + [p])[..|packets|] == packets;
  }

  datatype Step = EnqueueStep(stream: nat, data: Bytes) | StrictStep | VisitStep

  ghost predicate Shaped(l: Ledger) {
    && Wf(l.s)
    && |l.enqueued| == |l.dequeued| == |l.credits| == |l.forfeited| == NUM_STREAMS
  }

  ghost predicate Enabled(l: Ledger, step: Step) {
    && Shaped(l)
    && match step
       case EnqueueStep(stream, _) => stream < NUM_STREAMS
       case StrictStep => l.s.queues[0] != []
       case VisitStep => l.s.queues[0] == []
  }

  ghost function Apply(l: Ledger, step: Step): Ledger
    requires Enabled(l, step)
  {
    match step
    case EnqueueStep(i, data) =>
      l.(s := Enqueue(l.s, i, data), enqueued := l.enqueued[i := l.enqueued[i] + [data]])
    case StrictStep =>
      l.(s := l.s.(queues := l.s.queues[0 := l.s.queues[0][1..]]),
         dequeued := l.dequeued[0 := l.dequeued[0] + [l.s.queues[0][0]]])
    case VisitStep =>
      var i := l.s.cursor + 1;
      var t := Visit(l.s);
      Ledger(t.next, l.enqueued,
             if t.Served? then l.dequeued[i := l.dequeued[i] + [t.packet]] else l.dequeued,
             if l.s.queues[i] != [] && l.s.credited[i] != l.s.round then l.credits[i := l.credits[i] + 1] else l.credits,
             if l.s.queues[i] == [] then l.forfeited[i := l.forfeited[i] + l.s.deficits[i]] else l.forfeited)
  }

  ghost predicate Run(states: seq<Ledger>, steps: seq<Step>) {
    && |states| == |steps| + 1
    && forall k :: 0 <= k < |steps| ==> Enabled(states[k], steps[k]) && states[k + 1] == Apply(states[k], steps[k])
  }

  // ---------- What one iteration does to one stream ----------

  /** The credit stream `i` gets in this iteration. */
  ghost function Grant(s: Drr, i: nat): nat
    requires Wf(s) && 1 <= i < NUM_STREAMS
  {
    if i == s.cursor + 1 && s.queues[i] != [] && s.credited[i] != s.round then s.weights[i] * s.quantum else 0
  }

  lemma OtherStreamsUntouched(s: Drr, i: nat)
    requires Wf(s) && i < NUM_STREAMS && i != s.cursor + 1
    ensures var s' := Visit(s).next;
            |s'.queues| == |s'.deficits| == |s'.credited| == NUM_STREAMS
            && s'.queues[i] == s.queues[i] && s'.deficits[i] == s.deficits[i] && s'.credited[i] == s.credited[i]
  {
    VisitWf(s);
  }

  lemma CursorAfterVisit(s: Drr)
    requires Wf(s)
    ensures var s' := Visit(s).next;
            if Visit(s).Served? then s'.cursor == s.cursor && s'.round == s.round
            else if s.cursor == 5 then s'.cursor == 0 && s'.round == s.round + 1
            else s'.cursor == s.cursor + 1 && s'.round == s.round
  {
  }

  lemma VisitedStream(s: Drr)
    requires Wf(s)
    ensures var i, s' := s.cursor + 1, Visit(s).next;
            && Wf(s')
            && (s.queues[i] == [] ==>
                  !Visit(s).Served? && s'.queues[i] == [] && s'.deficits[i] == 0 && s'.credited[i] == s.credited[i])
            && (s.queues[i] != [] ==> s'.credited[i] == s.round)
            && (s.queues[i] != [] && Visit(s).Served? ==>
                  && Visit(s).packet == s.queues[i][0] && s'.queues[i] == s.queues[i][1..]
                  && s'.deficits[i] + |s.queues[i][0]| == s.deficits[i] + Grant(s, i))
            && (s.queues[i] != [] && !Visit(s).Served? ==>
                  && s'.queues[i] == s.queues[i] && s'.deficits[i] == s.deficits[i] + Grant(s, i)
                  && s'.deficits[i] < |s.queues[i][0]|)
  {
    VisitWf(s);
  }

  // ---------- The ledger balances ----------

  /** First in, first out, nothing lost and nothing duplicated. */
  ghost predicate Fifo(l: Ledger, i: nat)
    requires Shaped(l) && i < NUM_STREAMS
  {
    l.enqueued[i] == l.dequeued[i] + l.s.queues[i]
  }

  /** Credits are served, still held, or forfeited. */
  ghost predicate Balanced(l: Ledger, i: nat)
    requires Shaped(l) && i < NUM_STREAMS
  {
    l.credits[i] * (l.s.weights[i] * l.s.quantum) == TotalBytes(l.dequeued[i]) + l.s.deficits[i] + l.forfeited[i]
  }

  /** Stream `i` is in the middle of its turn. */
  ghost predicate InTurn(s: Drr, i: nat)
    requires Wf(s) && i < NUM_STREAMS
  {
    s.cursor + 1 == i && s.credited[i] == s.round
  }

  /** Outside its turn a stream holds less deficit than its front packet needs. */
  ghost predicate Restrained(s: Drr, i: nat)
    requires Wf(s) && i < NUM_STREAMS
  {
    InTurn(s, i) || s.deficits[i] == 0 || (s.queues[i] != [] && s.deficits[i] < |s.queues[i][0]|)
  }

  ghost predicate Inv(l: Ledger) {
    && Shaped(l)
    && (forall i :: 0 <= i < NUM_STREAMS ==> Fifo(l, i))
    && (forall i :: 1 <= i < NUM_STREAMS ==> Balanced(l, i) && Restrained(l.s, i))
  }

  lemma InitialInv(quantum: nat)
    ensures Inv(NewLedger(quantum))
  {
    var l := NewLedger(quantum);
    forall i | 1 <= i < NUM_STREAMS ensures Balanced(l, i) {
      assert l.credits[i] == 0 && l.dequeued[i] == [];
    }
  }

  lemma FifoAfterVisit(l: Ledger, i: nat)
    requires Enabled(l, VisitStep) && i < NUM_STREAMS && Fifo(l, i)
    ensures Shaped(Apply(l, VisitStep)) && Fifo(Apply(l, VisitStep), i)
  {
    VisitWf(l.s);
    if i == l.s.cursor + 1 {
      VisitedStream(l.s);
      if Visit(l.s).Served? {
        assert l.s.queues[i] == [l.s.queues[i][0]] + l.s.queues[i][1..];
      }
    } else {
      OtherStreamsUntouched(l.s, i);
    }
  }

  lemma BalancedAfterVisit(l: Ledger, i: nat)
    requires Enabled(l, VisitStep) && 1 <= i < NUM_STREAMS && Balanced(l, i)
    ensures Shaped(Apply(l, VisitStep)) && Balanced(Apply(l, VisitStep), i)
  {
    VisitWf(l.s);
    var l' := Apply(l, VisitStep);
    if i == l.s.cursor + 1 {
      VisitedStream(l.s);
      if Visit(l.s).Served? { TotalBytesSnoc(l.dequeued[i], Visit(l.s).packet); }
      var unit := l.s.weights[i] * l.s.quantum;
      assert (l.credits[i] + 1) * unit == l.credits[i] * unit + unit;
    } else {
      OtherStreamsUntouched(l.s, i);
    }
  }

  lemma RestrainedAfterVisit(s: Drr, i: nat)
    requires Wf(s) && 1 <= i < NUM_STREAMS && Restrained(s, i)
    ensures Wf(Visit(s).next) && Restrained(Visit(s).next, i)
  {
    VisitWf(s);
    CursorAfterVisit(s);
    if i == s.cursor + 1 { VisitedStream(s); } else { OtherStreamsUntouched(s, i); }
  }

  lemma EnqueueKeeps(l: Ledger, i: nat, data: Bytes)
    requires Inv(l) && Enabled(l, EnqueueStep(i, data))
    ensures Inv(Apply(l, EnqueueStep(i, data)))
  {
    var l' := Apply(l, EnqueueStep(i, data));
    forall j | 0 <= j < NUM_STREAMS ensures Fifo(l', j) {
      assert Fifo(l, j);
    }
    forall j | 1 <= j < NUM_STREAMS ensures Balanced(l', j) && Restrained(l'.s, j) {
      assert Balanced(l, j) && Restrained(l.s, j);
    }
  }

  lemma StrictKeeps(l: Ledger)
    requires Inv(l) && Enabled(l, StrictStep)
    ensures Inv(Apply(l, StrictStep))
  {
    var l' := Apply(l, StrictStep);
    forall j | 0 <= j < NUM_STREAMS ensures Fifo(l', j) {
      assert Fifo(l, j);
      if j == 0 { assert l.s.queues[0] == [l.s.queues[0][0]] + l.s.queues[0][1..]; }
    }
    forall j | 1 <= j < NUM_STREAMS ensures Balanced(l', j) && Restrained(l'.s, j) {
      assert Balanced(l, j) && Restrained(l.s, j);
    }
  }

  lemma VisitKeeps(l: Ledger)
    requires Inv(l) && Enabled(l, VisitStep)
    ensures Inv(Apply(l, VisitStep))
  {
    VisitWf(l.s);
    var l' := Apply(l, VisitStep);
    forall j | 0 <= j < NUM_STREAMS ensures Fifo(l', j) { FifoAfterVisit(l, j); }
    forall j | 1 <= j < NUM_STREAMS ensures Balanced(l', j) && Restrained(l'.s, j) {
      BalancedAfterVisit(l, j);
      RestrainedAfterVisit(l.s, j);
    }
  }

  lemma StepKeeps(l: Ledger, step: Step)
    requires Inv(l) && Enabled(l, step)
    ensures Inv(Apply(l, step))
    ensures Apply(l, step).s.weights == l.s.weights && Apply(l, step).s.quantum == l.s.quantum
  {
    match step
    case EnqueueStep(i, data) => EnqueueKeeps(l, i, data);
    case StrictStep => StrictKeeps(l);
    case VisitStep => VisitKeeps(l); VisitWf(l.s);
  }

  /** Over every run from any state that balances: streams stay first-in first-out and every byte of
      credit is accounted for. */
  lemma {:induction false} RunBalances(states: seq<Ledger>, steps: seq<Step>, n: nat)
    requires Run(states, steps) && Inv(states[0]) && n <= |steps|
    ensures Inv(states[n])
    ensures states[n].s.weights == states[0].s.weights && states[n].s.quantum == states[0].s.quantum
  {
    if n > 0 {
      RunBalances(states, steps, n - 1);
      StepKeeps(states[n - 1], steps[n - 1]);
    }
  }

  /** A dequeue from the weighted streams is a run of loop iterations, so what is shown of all runs holds
      of every interleaving of enqueues and dequeues. */
  lemma {:induction false} DequeueIsARun(l: Ledger, n: nat) returns (states: seq<Ledger>, steps: seq<Step>)
    requires Inv(l) && l.s.queues[0] == [] && Finishes(l.s, n)
    ensures Run(states, steps) && states[0] == l && Inv(states[|steps|])
    ensures states[|steps|].s == Loop(l.s, n).next
    ensures forall k :: 0 <= k < |steps| ==> steps[k].VisitStep?
    decreases n
  {
    VisitKeeps(l);
    VisitWf(l.s);
    var next := Apply(l, VisitStep);
    OtherStreamsUntouched(l.s, 0);
    if Visit(l.s).Moved? {
      var states', steps' := DequeueIsARun(next, n - 1);
      states, steps := [l] + states', [VisitStep] + steps';
      forall k | 0 <= k < |steps| ensures Enabled(states[k], steps[k]) && states[k + 1] == Apply(states[k], steps[k]) {
        if k > 0 { assert states[k] == states'[k - 1] && states[k + 1] == states'[k]; }
      }
    } else {
      states, steps := [l, next], [VisitStep];
    }
  }

  // ---------- Fairness ----------

  /** A round has just begun: the cursor is at the first stream and nobody has been credited in it. */
  ghost predicate RoundBegins(s: Drr) {
    Wf(s) && s.cursor == 0 && forall i :: 1 <= i < NUM_STREAMS ==> s.credited[i] != s.round
  }

  ghost predicate Backlogged(states: seq<Ledger>, i: nat) {
    forall k :: 0 <= k < |states| ==> Shaped(states[k]) && i < NUM_STREAMS && states[k].s.queues[i] != []
  }

  /** Rounds begun, counting the current one once the stream has been credited in it. */
  ghost function Turns(s: Drr, i: nat): int
    requires Wf(s) && i < NUM_STREAMS
  {
    s.round + if s.credited[i] == s.round then 1 else 0
  }

  /** A waiting stream the cursor has passed in this round has been credited in it. */
  ghost predicate CreditedIfPassed(s: Drr, i: nat)
    requires Wf(s) && i < NUM_STREAMS
  {
    i - 1 < s.cursor ==> s.credited[i] == s.round
  }

  lemma TurnsAfterVisit(l: Ledger, i: nat)
    requires Enabled(l, VisitStep) && 1 <= i < NUM_STREAMS && l.s.queues[i] != [] && CreditedIfPassed(l.s, i)
    ensures var l' := Apply(l, VisitStep);
            && Shaped(l') && CreditedIfPassed(l'.s, i)
            && l'.credits[i] + Turns(l.s, i) == l.credits[i] + Turns(l'.s, i)
            && l'.forfeited[i] == l.forfeited[i]
  {
    VisitWf(l.s);
    CursorAfterVisit(l.s);
    if i == l.s.cursor + 1 { VisitedStream(l.s); } else { OtherStreamsUntouched(l.s, i); }
  }

  lemma {:induction false} CreditsFollowTurns(states: seq<Ledger>, steps: seq<Step>, i: nat, n: nat)
    requires Run(states, steps) && Inv(states[0]) && n <= |steps| && 1 <= i < NUM_STREAMS
    requires RoundBegins(states[0].s) && Backlogged(states, i)
    ensures Inv(states[n]) && CreditedIfPassed(states[n].s, i)
    ensures states[n].credits[i] + Turns(states[0].s, i) == states[0].credits[i] + Turns(states[n].s, i)
    ensures states[n].forfeited[i] == states[0].forfeited[i]
  {
    RunBalances(states, steps, n);
    if n > 0 {
      CreditsFollowTurns(states, steps, i, n - 1);
      var l := states[n - 1];
      if steps[n - 1].VisitStep? { TurnsAfterVisit(l, i); }
    }
  }

  /** `|x - y| < bound` */
  predicate Within(x: int, y: int, bound: int) {
    x < y + bound && y < x + bound
  }

  /** A stream backlogged over `m` full rounds is served within one maximum packet of `m * w * Q`. */
  lemma ServedInProportion(states: seq<Ledger>, steps: seq<Step>, i: nat, maxPacket: nat)
    requires Run(states, steps) && Inv(states[0]) && 1 <= i < NUM_STREAMS && maxPacket >= 1
    requires Backlogged(states, i) && RoundBegins(states[0].s) && RoundBegins(states[|steps|].s)
    requires forall k :: 0 <= k < |states| ==> |states[k].s.queues[i][0]| <= maxPacket
    ensures var a, b := states[0], states[|steps|];
            var rounds := b.s.round as int - a.s.round;
            var served := TotalBytes(b.dequeued[i]) as int - TotalBytes(a.dequeued[i]);
            Within(served, rounds * (a.s.weights[i] * a.s.quantum), maxPacket)
  {
    var a, b := states[0], states[|steps|];
    RunBalances(states, steps, |steps|);
    CreditsFollowTurns(states, steps, i, |steps|);
    assert Balanced(a, i) && Balanced(b, i) && Restrained(a.s, i) && Restrained(b.s, i);
    var unit := a.s.weights[i] * a.s.quantum;
    var m := b.s.round as int - a.s.round;
    assert b.credits[i] == a.credits[i] + m;
    assert b.credits[i] * unit == a.credits[i] * unit + m * unit;
  }

  lemma ProportionsAgree(wi: nat, wj: nat, quantum: nat, rounds: int, si: int, sj: int, maxPacket: nat)
    requires wi >= 1 && wj >= 1
    requires Within(si, rounds * (wi * quantum), maxPacket)
    requires Within(sj, rounds * (wj * quantum), maxPacket)
    ensures Within(wj * si, wi * sj, (wi + wj) * maxPacket)
  {
    var ri, rj := rounds * (wi * quantum), rounds * (wj * quantum);
    SameProduct(wi, wj, quantum, rounds);
    ScaleWithin(wj, si, ri, maxPacket);
    ScaleWithin(wi, sj, rj, maxPacket);
    assert (wi + wj) * maxPacket == wi * maxPacket + wj * maxPacket;
  }

  lemma SameProduct(wi: int, wj: int, quantum: int, rounds: int)
    ensures wj * (rounds * (wi * quantum)) == wi * (rounds * (wj * quantum))
  {
    assert wj * (rounds * (wi * quantum)) == rounds * (wj * (wi * quantum));
    assert wi * (rounds * (wj * quantum)) == rounds * (wi * (wj * quantum));
    assert wj * (wi * quantum) == wi * (wj * quantum);
  }

  lemma ScaleWithin(w: nat, x: int, y: int, bound: nat)
    requires w >= 1 && Within(x, y, bound)
    ensures Within(w * x, w * y, w * bound)
  {
    ScaleLess(w, x, y + bound);
    ScaleLess(w, y, x + bound);
    assert w * (y + bound) == w * y + w * bound;
    assert w * (x + bound) == w * x + w * bound;
  }

  lemma ScaleLess(w: nat, x: int, y: int)
    requires w >= 1 && x < y
    ensures w * x < w * y
  {
  }

  /** Main result: over any stretch of full rounds, two backlogged streams share the link in proportion
      to their weights, to within one maximum packet each. */
  lemma WeightedFairness(states: seq<Ledger>, steps: seq<Step>, i: nat, j: nat, maxPacket: nat)
    requires Run(states, steps) && Inv(states[0]) && 1 <= i < NUM_STREAMS && 1 <= j < NUM_STREAMS && maxPacket >= 1
    requires Backlogged(states, i) && Backlogged(states, j)
    requires RoundBegins(states[0].s) && RoundBegins(states[|steps|].s)
    requires forall k :: 0 <= k < |states| ==>
               |states[k].s.queues[i][0]| <= maxPacket && |states[k].s.queues[j][0]| <= maxPacket
    ensures var a, b := states[0], states[|steps|];
            var si := TotalBytes(b.dequeued[i]) as int - TotalBytes(a.dequeued[i]);
            var sj := TotalBytes(b.dequeued[j]) as int - TotalBytes(a.dequeued[j]);
            var wi, wj := a.s.weights[i], a.s.weights[j];
            Within(wj * si, wi * sj, (wi + wj) * maxPacket)
  {
    ServedInProportion(states, steps, i, maxPacket);
    ServedInProportion(states, steps, j, maxPacket);
    var a, b := states[0], states[|steps|];
    ProportionsAgree(a.s.weights[i], a.s.weights[j], a.s.quantum, b.s.round as int - a.s.round,
                     TotalBytes(b.dequeued[i]) as int - TotalBytes(a.dequeued[i]),
                     TotalBytes(b.dequeued[j]) as int - TotalBytes(a.dequeued[j]), maxPacket);
  }

  // ---------- Delay ----------

  /** `ceil(length / unit)`, and at least 1. */
  function RoundsNeeded(length: nat, unit: nat): nat
    requires unit >= 1
  {
    if length == 0 then 1 else (length + unit - 1) / unit
  }

  /** While its front packet waits, a stream keeps all credit and gains one unit each round. */
  ghost predicate Saving(a: Ledger, l: Ledger, i: nat)
    requires Shaped(a) && Shaped(l) && 1 <= i < NUM_STREAMS
  {
    var unit := a.s.weights[i] * a.s.quantum;
    var gained := l.credits[i] as int - a.credits[i];
    && a.s.queues[i] != [] && l.s.queues[i] != [] && l.s.queues[i][0] == a.s.queues[i][0]
    && gained >= 0
    && l.s.deficits[i] == a.s.deficits[i] + gained * unit
    && l.s.round >= a.s.round
    && gained >= l.s.round - a.s.round - 1 + (if l.s.credited[i] == l.s.round && l.s.round > a.s.round then 1 else 0)
    && (InTurn(l.s, i) ==> l.s.round == a.s.round)
    && (l.s.round > a.s.round ==> (l.s.credited[i] == l.s.round <==> i - 1 < l.s.cursor))
  }

  lemma SavingVisit(a: Ledger, l: Ledger, i: nat)
    requires Shaped(a) && Enabled(l, VisitStep) && 1 <= i < NUM_STREAMS && Saving(a, l, i)
    requires l.s.weights == a.s.weights && l.s.quantum == a.s.quantum
    requires Apply(l, VisitStep).dequeued[i] == l.dequeued[i]
    ensures Shaped(Apply(l, VisitStep)) && Saving(a, Apply(l, VisitStep), i)
  {
    VisitWf(l.s);
    CursorAfterVisit(l.s);
    if i == l.s.cursor + 1 { SavingOwnTurn(a, l, i); } else { OtherStreamsUntouched(l.s, i); }
  }

  lemma SavingOwnTurn(a: Ledger, l: Ledger, i: nat)
    requires Shaped(a) && Enabled(l, VisitStep) && i == l.s.cursor + 1 && Saving(a, l, i)
    requires l.s.weights == a.s.weights && l.s.quantum == a.s.quantum
    requires Apply(l, VisitStep).dequeued[i] == l.dequeued[i]
    ensures Shaped(Apply(l, VisitStep)) && Saving(a, Apply(l, VisitStep), i)
  {
    VisitedStream(l.s);
    CursorAfterVisit(l.s);
    var unit := a.s.weights[i] * a.s.quantum;
    var gained := l.credits[i] as int - a.credits[i];
    assert (gained + 1) * unit == gained * unit + unit;
    assert !Visit(l.s).Served?;
  }

  lemma {:induction false} SavingRun(states: seq<Ledger>, steps: seq<Step>, i: nat, n: nat)
    requires Run(states, steps) && Inv(states[0]) && n <= |steps| && 1 <= i < NUM_STREAMS
    requires states[0].s.queues[i] != []
    requires forall k :: 0 <= k <= n ==> Shaped(states[k]) && states[k].dequeued[i] == states[0].dequeued[i]
    ensures Inv(states[n]) && Saving(states[0], states[n], i)
  {
    RunBalances(states, steps, n);
    if n > 0 {
      SavingRun(states, steps, i, n - 1);
      RunBalances(states, steps, n - 1);
      if steps[n - 1].VisitStep? { SavingVisit(states[0], states[n - 1], i); }
    }
  }

  lemma NeededIsEnough(length: nat, unit: nat)
    requires unit >= 1
    ensures RoundsNeeded(length, unit) >= 1 && RoundsNeeded(length, unit) * unit >= length
  {
    if length > 0 {
      var q := (length + unit - 1) / unit;
      assert length + unit - 1 == q * unit + (length + unit - 1) % unit;
      MulAtLeast(q, unit);
    }
  }

  /** Main result: as long as the front packet of a stream has not left, at most
      `max(1, ceil(L / (w * Q)))` further rounds have begun. */
  lemma FrontPacketLeavesInTime(states: seq<Ledger>, steps: seq<Step>, i: nat)
    requires Run(states, steps) && Inv(states[0]) && 1 <= i < NUM_STREAMS
    requires states[0].s.quantum >= 1 && states[0].s.queues[i] != []
    requires forall k :: 0 <= k < |states| ==> Shaped(states[k]) && states[k].dequeued[i] == states[0].dequeued[i]
    ensures states[0].s.weights[i] * states[0].s.quantum >= 1
    ensures states[|steps|].s.round <=
            states[0].s.round + RoundsNeeded(|states[0].s.queues[i][0]|, states[0].s.weights[i] * states[0].s.quantum)
  {
    var a, b := states[0], states[|steps|];
    var unit := a.s.weights[i] * a.s.quantum;
    assert unit >= 1;
    SavingRun(states, steps, i, |steps|);
    var need := RoundsNeeded(|a.s.queues[i][0]|, unit);
    NeededIsEnough(|a.s.queues[i][0]|, unit);
    assert Restrained(b.s, i);
    GainedEnough(b.credits[i] as int - a.credits[i], need, unit);
  }

  lemma GainedEnough(gained: int, need: nat, unit: nat)
    ensures gained >= need ==> gained * unit >= need * unit
  {
    if gained >= need { assert (gained - need) * unit >= 0; }
  }
}
