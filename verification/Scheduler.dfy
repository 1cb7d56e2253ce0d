/** The Deficit Round Robin scheduler over seven streams: stream 0 has strict priority, streams 1 to 6
    share by weight. `Visit` is one iteration of the dequeue loop. Byte counters are unbounded here.
 */
module Scheduler {
  import opened Words

  const NUM_STREAMS: nat := 7
  const NUM_DRR_STREAMS: nat := 6
  const DEFAULT_WEIGHTS: seq<nat> := [0, 6, 5, 3, 4, 2, 1]

  /** `credited[i]` is the round in which stream `i` last got credit; -1 stands for the source's
      sentinel `u64::MAX`, a round that never comes. */
  datatype Drr = Drr(
    queues: seq<seq<Bytes>>, deficits: seq<nat>, weights: seq<nat>, quantum: nat,
    cursor: nat, roundStart: nat, round: nat, credited: seq<int>)

  function WithQuantum(quantum: nat): Drr {
    Drr([[], [], [], [], [], [], []], [0, 0, 0, 0, 0, 0, 0], DEFAULT_WEIGHTS, quantum, 0, 0, 0,
        [-1, -1, -1, -1, -1, -1, -1])
  }

  ghost predicate Wf(s: Drr) {
    && |s.queues| == |s.deficits| == |s.weights| == |s.credited| == NUM_STREAMS
    && s.cursor < NUM_DRR_STREAMS
    && s.roundStart == 0
    && (forall i :: 1 <= i < NUM_STREAMS ==> s.weights[i] >= 1)
    && (forall i :: 0 <= i < NUM_STREAMS ==> s.credited[i] <= s.round)
  }

  lemma NewIsWf(quantum: nat)
    ensures Wf(WithQuantum(quantum))
  {
  }

  predicate DrrEmpty(s: Drr)
    requires |s.queues| == NUM_STREAMS
  {
    forall i :: 1 <= i < NUM_STREAMS ==> s.queues[i] == []
  }

  function Enqueue(s: Drr, stream: nat, data: Bytes): Drr
    requires |s.queues| == NUM_STREAMS && stream < NUM_STREAMS
  {
    s.(queues := s.queues[stream := s.queues[stream] + [data]])
  }

  /** Credit once per round. */
  function Credit(s: Drr, i: nat): Drr
    requires Wf(s) && 1 <= i < NUM_STREAMS
  {
    if s.credited[i] != s.round then
      s.(deficits := s.deficits[i := s.deficits[i] + s.weights[i] * s.quantum], credited := s.credited[i := s.round])
    else s
  }

  /** End of a turn: the cursor moves on, and a full circuit closes the round. */
  function Advance(s: Drr): Drr {
    var cursor := (s.cursor + 1) % NUM_DRR_STREAMS;
    if cursor == s.roundStart then s.(cursor := cursor, round := s.round + 1, roundStart := cursor)
    else s.(cursor := cursor)
  }

  datatype Turn =
    | Served(stream: nat, packet: Bytes, next: Drr)
    | NoneLeft(next: Drr)
    | Moved(next: Drr)

  function EndTurn(s: Drr): Turn
    requires |s.queues| == NUM_STREAMS
  {
    if DrrEmpty(s) then NoneLeft(Advance(s)) else Moved(Advance(s))
  }

  function Serve(s: Drr, i: nat): Drr
    requires Wf(s) && 1 <= i < NUM_STREAMS && s.queues[i] != [] && |s.queues[i][0]| <= s.deficits[i]
  {
    s.(queues := s.queues[i := s.queues[i][1..]], deficits := s.deficits[i := s.deficits[i] - |s.queues[i][0]|])
  }

  /** One iteration of the loop in `dequeue_next`. */
  function Visit(s: Drr): Turn
    requires Wf(s)
  {
    var i := s.cursor + 1;
    if s.queues[i] != [] then
      var c := Credit(s, i);
      if |c.queues[i][0]| <= c.deficits[i] then Served(i, c.queues[i][0], Serve(c, i)) else EndTurn(c)
    else EndTurn(s.(deficits := s.deficits[i := 0]))
  }

  lemma VisitWf(s: Drr)
    requires Wf(s)
    ensures Wf(Visit(s).next)
    ensures Visit(s).next.weights == s.weights && Visit(s).next.quantum == s.quantum
  {
  }

  // ---------- When the loop ends ----------

  /** The loop ends within `n` iterations. */
  predicate Finishes(s: Drr, n: nat)
    requires Wf(s)
    decreases n
  {
    n > 0 && (Visit(s).Moved? ==> (VisitWf(s); Finishes(Visit(s).next, n - 1)))
  }

  ghost predicate Ends(s: Drr)
    requires Wf(s)
  {
    exists n: nat :: Finishes(s, n)
  }

  lemma {:induction false} EndsWithin(s: Drr, n: nat)
    requires Wf(s) && Finishes(s, n)
    ensures Ends(s)
  {
  }

  ghost predicate Ready(s: Drr, i: nat)
    requires Wf(s)
  {
    1 <= i < NUM_STREAMS && s.queues[i] != [] && |s.queues[i][0]| <= s.deficits[i]
  }

  /** The exact condition under which the loop ends. */
  ghost predicate CanFinish(s: Drr)
    requires Wf(s)
  {
    s.quantum >= 1 || DrrEmpty(s) || exists i: nat :: Ready(s, i)
  }

  /** How much deficit the front packet of a stream still lacks. */
  function Lack(s: Drr, i: nat): nat
    requires Wf(s) && 1 <= i < NUM_STREAMS
  {
    if s.queues[i] == [] then 0 else SaturatingSub(|s.queues[i][0]|, s.deficits[i])
  }

  function TotalLack(s: Drr): nat
    requires Wf(s)
  {
    Lack(s, 1) + Lack(s, 2) + Lack(s, 3) + Lack(s, 4) + Lack(s, 5) + Lack(s, 6)
  }

  /** Some waiting stream will still be credited this round. */
  ghost predicate CreditAhead(s: Drr)
    requires Wf(s)
  {
    exists i :: s.cursor + 1 <= i < NUM_STREAMS && s.queues[i] != [] && s.credited[i] != s.round
  }

  ghost function Phase(s: Drr): nat
    requires Wf(s)
  {
    if CreditAhead(s) then 0 else 1
  }

  /** Each iteration that serves nothing lowers the total lack, or brings the next credit closer. */
  lemma VisitProgress(s: Drr)
    requires Wf(s) && s.quantum >= 1 && Visit(s).Moved?
    ensures var s' := Visit(s).next;
            Wf(s') && (TotalLack(s') < TotalLack(s) ||
                       (TotalLack(s') == TotalLack(s) && Phase(s') < Phase(s)) ||
                       (TotalLack(s') == TotalLack(s) && Phase(s') == Phase(s) && s'.cursor > s.cursor))
  {
    VisitWf(s);
    var i, s' := s.cursor + 1, Visit(s).next;
    if s.queues[i] != [] && s.credited[i] != s.round {
      CreditLowersLack(s);
    } else {
      NoCreditSameLack(s);
      PhaseProgress(s);
    }
  }

  lemma NoCreditSameLack(s: Drr)
    requires Wf(s) && Visit(s).Moved?
    requires s.queues[s.cursor + 1] == [] || s.credited[s.cursor + 1] == s.round
    ensures Wf(Visit(s).next) && TotalLack(Visit(s).next) == TotalLack(s)
  {
    VisitWf(s);
    var s' := Visit(s).next;
    assert forall j :: 1 <= j < NUM_STREAMS ==> Lack(s', j) == Lack(s, j);
  }

  lemma CreditLowersLack(s: Drr)
    requires Wf(s) && s.quantum >= 1 && Visit(s).Moved?
    requires s.queues[s.cursor + 1] != [] && s.credited[s.cursor + 1] != s.round
    ensures Wf(Visit(s).next) && TotalLack(Visit(s).next) < TotalLack(s)
  {
    VisitWf(s);
    var i, s' := s.cursor + 1, Visit(s).next;
    assert s.weights[i] * s.quantum >= 1;
    assert Lack(s', i) < Lack(s, i);
    assert forall j :: 1 <= j < NUM_STREAMS && j != i ==> Lack(s', j) == Lack(s, j);
  }

  lemma PhaseProgress(s: Drr)
    requires Wf(s) && Visit(s).Moved?
    requires s.queues[s.cursor + 1] == [] || s.credited[s.cursor + 1] == s.round
    ensures var s' := Visit(s).next;
            Wf(s') && (Phase(s') < Phase(s) || (Phase(s') == Phase(s) && s'.cursor > s.cursor))
  {
    VisitWf(s);
    var s' := Visit(s).next;
    if s.cursor + 1 < NUM_DRR_STREAMS {
      assert s'.cursor == s.cursor + 1 && s'.round == s.round && s'.queues == s.queues && s'.credited == s.credited;
      assert CreditAhead(s) <==> CreditAhead(s');
    } else {
      var j :| 1 <= j < NUM_STREAMS && s'.queues[j] != [];
      assert s'.credited[j] != s'.round;
      assert CreditAhead(s');
      assert !CreditAhead(s);
    }
  }

  lemma {:induction false} QuantumFinishes(s: Drr) returns (n: nat)
    requires Wf(s) && s.quantum >= 1
    ensures Finishes(s, n)
    decreases TotalLack(s), Phase(s), NUM_DRR_STREAMS - s.cursor
  {
    n := 0;
    if Visit(s).Moved? {
      VisitProgress(s);
      n := QuantumFinishes(Visit(s).next);
    }
    n := n + 1;
  }

  /** Without a quantum, a stream that can already send is reached within one circuit. */
  lemma {:induction false} ReadyFinishes(s: Drr, i: nat) returns (n: nat)
    requires Wf(s) && Ready(s, i)
    ensures Finishes(s, n)
    decreases if s.cursor < i then i - s.cursor else i - s.cursor + NUM_DRR_STREAMS
  {
    n := 0;
    if Visit(s).Moved? {
      VisitWf(s);
      assert s.cursor + 1 != i;
      n := ReadyFinishes(Visit(s).next, i);
    }
    n := n + 1;
  }

  /** A scheduler that can neither credit nor serve only goes round in circles. */
  lemma {:induction false} StuckForever(s: Drr, n: nat)
    requires Wf(s) && !CanFinish(s)
    ensures !Finishes(s, n)
    decreases n
  {
    if n > 0 {
      StuckMoves(s);
      StuckForever(Visit(s).next, n - 1);
    }
  }

  lemma StuckMoves(s: Drr)
    requires Wf(s) && !CanFinish(s)
    ensures Visit(s).Moved? && Wf(Visit(s).next) && !CanFinish(Visit(s).next)
  {
    VisitWf(s);
    var i, s' := s.cursor + 1, Visit(s).next;
    assert !Ready(s, i);
    assert s.weights[i] * s.quantum == 0;
    forall j: nat ensures !Ready(s', j) {
      assert !Ready(s, j);
    }
  }

  /** Main result: the dequeue loop ends exactly when the quantum is positive, the weighted streams are
      all empty, or one of them can already send. */
  lemma LoopEndsExactly(s: Drr)
    requires Wf(s)
    ensures Ends(s) <==> CanFinish(s)
  {
    if CanFinish(s) {
      if s.quantum >= 1 {
        var n := QuantumFinishes(s);
        EndsWithin(s, n);
      } else if DrrEmpty(s) {
        EndsWithin(s, 1);
      } else {
        var i: nat :| Ready(s, i);
        var n := ReadyFinishes(s, i);
        EndsWithin(s, n);
      }
    } else {
      forall n: nat ensures !Finishes(s, n) { StuckForever(s, n); }
    }
  }

  /** The failing input: a fresh scheduler without a quantum, given one packet on a weighted stream, never ends its
      loop unless the packet is empty. */
  lemma FreshWithoutQuantum(stream: nat, data: Bytes)
    requires 1 <= stream < NUM_STREAMS
    ensures Wf(Enqueue(WithQuantum(0), stream, data))
    ensures Ends(Enqueue(WithQuantum(0), stream, data)) <==> data == []
  {
    var s := Enqueue(WithQuantum(0), stream, data);
    NewIsWf(0);
    LoopEndsExactly(s);
    assert s.queues[stream] == [data];
    if data == [] { assert Ready(s, stream); }
  }

  // ---------- A whole dequeue ----------

  /** The outcome of the loop, given that it ends within `n` iterations. */
  function Loop(s: Drr, n: nat): (t: Turn)
    requires Wf(s) && Finishes(s, n)
    ensures !t.Moved? && Wf(t.next)
    decreases n
  {
    VisitWf(s);
    if Visit(s).Moved? then Loop(Visit(s).next, n - 1) else Visit(s)
  }

  lemma {:induction false} LoopIsDetermined(s: Drr, m: nat, n: nat)
    requires Wf(s) && Finishes(s, m) && Finishes(s, n)
    ensures Loop(s, m) == Loop(s, n)
    decreases n
  {
    VisitWf(s);
    if Visit(s).Moved? { LoopIsDetermined(Visit(s).next, m - 1, n - 1); }
  }

  /** The loop takes the front packet of one weighted stream and touches no other queue; it comes back
      empty-handed exactly when those streams are all empty. */
  lemma {:induction false} LoopTakesAFront(s: Drr, n: nat)
    requires Wf(s) && Finishes(s, n)
    ensures Loop(s, n).NoneLeft? <==> DrrEmpty(s)
    ensures Loop(s, n).NoneLeft? ==> Loop(s, n).next.queues == s.queues
    ensures Loop(s, n).Served? ==>
              var t := Loop(s, n);
              && 1 <= t.stream < NUM_STREAMS && s.queues[t.stream] != []
              && t.packet == s.queues[t.stream][0]
              && t.next.queues == s.queues[t.stream := s.queues[t.stream][1..]]
    decreases n
  {
    VisitWf(s);
    if Visit(s).Moved? {
      assert Visit(s).next.queues == s.queues;
      LoopTakesAFront(Visit(s).next, n - 1);
    }
  }
}

/** The scheduler object. */
module SchedulerObject {
  import opened Words
  import opened Scheduler

  datatype Dequeued = Nothing | Packet(stream: nat, data: Bytes)

  datatype EnqueueResult = Enqueued | InvalidStreamId(streamId: nat)

  /** What a dequeue does to the scheduler: a strict-priority pop, or the loop run to its end. */
  ghost predicate DequeueSpec(s: Drr, r: Dequeued, s': Drr)
    requires Wf(s)
  {
    if s.queues[0] != [] then
      r == Packet(0, s.queues[0][0]) && s' == s.(queues := s.queues[0 := s.queues[0][1..]])
    else
      exists n: nat ::
        && Finishes(s, n)
        && s' == Loop(s, n).next
        && r == if Loop(s, n).Served? then Packet(Loop(s, n).stream, Loop(s, n).packet) else Nothing
  }

  class DrrScheduler {
    var queues: seq<seq<Bytes>>
    var deficits: seq<nat>
    const weights: seq<nat>
    const quantum: nat
    var cursor: nat
    var roundStart: nat
    var round: nat
    var credited: seq<int>

    ghost function Value(): Drr
      reads this
    {
      Drr(queues, deficits, weights, quantum, cursor, roundStart, round, credited)
    }

    constructor (quantum: nat)
      ensures Value() == WithQuantum(quantum) && Wf(Value())
    {
      queues := [[], [], [], [], [], [], []];
      deficits := [0, 0, 0, 0, 0, 0, 0];
      weights := DEFAULT_WEIGHTS;
      this.quantum := quantum;
      cursor, roundStart, round := 0, 0, 0;
      credited := [-1, -1, -1, -1, -1, -1, -1];
    }

    method EnqueueData(streamId: nat, data: Bytes) returns (r: EnqueueResult)
      requires Wf(Value())
      modifies this`queues
      ensures Wf(Value())
      ensures streamId >= NUM_STREAMS ==> r == InvalidStreamId(streamId) && queues == old(queues)
      ensures streamId < NUM_STREAMS ==> r == Enqueued && Value() == Enqueue(old(Value()), streamId, data)
    {
      if streamId >= NUM_STREAMS { return InvalidStreamId(streamId); }
      queues := queues[streamId := queues[streamId] + [data]];
      r := Enqueued;
    }

    /** One turn of the loop; `done` when it returns from `dequeue_next`. */
    method TakeTurn() returns (done: bool, r: Dequeued)
      requires Wf(Value())
      modifies this
      ensures Wf(Value()) && Value() == Visit(old(Value())).next
      ensures done == !Visit(old(Value())).Moved?
      ensures r == match Visit(old(Value()))
                   case Served(stream, packet, _) => Packet(stream, packet)
                   case NoneLeft(_) => Nothing
                   case Moved(_) => Nothing
    {
      VisitWf(Value());
      var s := cursor + 1;
      if queues[s] != [] {
        if credited[s] != round {
          deficits := deficits[s := deficits[s] + weights[s] * quantum];
          credited := credited[s := round];
        }
        var frontLen := |queues[s][0]|;
        if frontLen <= deficits[s] {
          var data := queues[s][0];
          queues := queues[s := queues[s][1..]];
          deficits := deficits[s := deficits[s] - frontLen];
          return true, Packet(s, data);
        }
      } else {
        deficits := deficits[s := 0];
      }
      done := MoveOn();
      r := Nothing;
    }

    /** Moves the cursor and says whether every weighted queue is empty. */
    method MoveOn() returns (done: bool)
      requires |queues| == NUM_STREAMS
      modifies this`cursor, this`round, this`roundStart
      ensures Value() == Advance(old(Value())) && done == DrrEmpty(Value())
    {
      cursor := (cursor + 1) % NUM_DRR_STREAMS;
      if cursor == roundStart {
        round := round + 1;
        roundStart := cursor;
      }
      done := forall i :: 1 <= i < NUM_STREAMS ==> queues[i] == [];
    }

    /** Dequeues the next payload. The precondition is the exact condition under which this ends. */
    method DequeueNext() returns (r: Dequeued)
      requires Wf(Value()) && (queues[0] == [] ==> CanFinish(Value()))
      modifies this
      ensures Wf(Value()) && DequeueSpec(old(Value()), r, Value())
      ensures r.Nothing? <==> forall i :: 0 <= i < NUM_STREAMS ==> old(queues)[i] == []
      ensures r.Nothing? ==> queues == old(queues)
      ensures r.Packet? ==>
        && r.stream < NUM_STREAMS && old(queues)[r.stream] != []
        && r.data == old(queues)[r.stream][0]
        && queues == old(queues)[r.stream := old(queues)[r.stream][1..]]
      ensures old(queues)[0] != [] ==> r.Packet? && r.stream == 0
    {
      if queues[0] != [] {
        r := Packet(0, queues[0][0]);
        queues := queues[0 := queues[0][1..]];
        return;
      }
      r := RunLoop();
    }

    /** The weighted part of a dequeue. */
    method RunLoop() returns (r: Dequeued)
      requires Wf(Value()) && queues[0] == [] && CanFinish(Value())
      modifies this
      ensures Wf(Value()) && DequeueSpec(old(Value()), r, Value())
      ensures r.Nothing? <==> DrrEmpty(old(Value()))
      ensures r.Nothing? ==> queues == old(queues)
      ensures r.Packet? ==>
        && 1 <= r.stream < NUM_STREAMS && old(queues)[r.stream] != []
        && r.data == old(queues)[r.stream][0]
        && queues == old(queues)[r.stream := old(queues)[r.stream][1..]]
    {
      LoopEndsExactly(Value());
      ghost var n: nat :| Finishes(Value(), n);
      ghost var goal := Loop(Value(), n);
      LoopTakesAFront(Value(), n);
      r := FollowLoop(n, goal);
    }

    method FollowLoop(ghost n: nat, ghost goal: Turn) returns (r: Dequeued)
      requires Wf(Value()) && Finishes(Value(), n) && goal == Loop(Value(), n)
      modifies this
      ensures Wf(Value()) && Value() == goal.next
      ensures r == if goal.Served? then Packet(goal.stream, goal.packet) else Nothing
    {
      ghost var left := n;
      var done := false;
      r := Nothing;
      while !done
        invariant Wf(Value())
        invariant !done ==> Finishes(Value(), left) && Loop(Value(), left) == goal
        invariant done ==> Value() == goal.next
        invariant done ==> r == if goal.Served? then Packet(goal.stream, goal.packet) else Nothing
        decreases !done, left
      {
        done, r := TakeTurn();
        left := left - 1;
      }
    }
  }
}

