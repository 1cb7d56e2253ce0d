/** Why the pool's bound is 65536: uninterrupted operations on the pool, and the run in which exactly
    65536 head updates fall between one thread's load and its compare-exchange. The generation has
    then come full circle, the stale exchange succeeds, and a held slot is handed out again.
 */
module SlotPoolWrap {
  import opened Words
  import opened SlotPool

  lemma {:induction false} ExecAppend(s: Pool, a: seq<Step>, b: seq<Step>, bound: nat)
    requires AllInTime(s, a, bound) && Exec(s, a).Reached?
    requires AllInTime(Exec(s, a).pool, b, bound)
    ensures Exec(s, a + b) == Exec(Exec(s, a).pool, b)
    ensures AllInTime(s, a + b, bound)
    decreases |a|
  {
    if a == [] {
      assert a + b == b;
    } else {
      ExecAppend(Apply(s, a[0]), a[1..], b, bound);
      assert (a + b)[0] == a[0] && (a + b)[1..] == a[1..] + b;
    }
  }

  /** `steps` leads from `s` to `s'` with every compare-exchange within `bound`. */
  ghost predicate Leads(s: Pool, steps: seq<Step>, s': Pool, bound: nat) {
    AllInTime(s, steps, bound) && Exec(s, steps) == Reached(s')
  }

  lemma LeadsAppend(s: Pool, a: seq<Step>, mid: Pool, b: seq<Step>, s': Pool, bound: nat)
    requires Leads(s, a, mid, bound) && Leads(mid, b, s', bound)
    ensures Leads(s, a + b, s', bound)
  {
    ExecAppend(s, a, b, bound);
  }

  // ---------- Uninterrupted operations ----------

  function Checkout(t: nat): seq<Step> {
    [BeginCheckout(t), LoadNext(t), PopExchange(t, false)]
  }

  function Release(t: nat, slot: nat): seq<Step> {
    [BeginRelease(t, slot), StoreNext(t), PushExchange(t, false)]
  }

  /** An uninterrupted checkout takes the top slot and moves the head to its link. */
  lemma CheckoutTakesTop(s: Pool, t: nat, bound: nat)
    requires t < |s.threads| && s.threads[t].pc.Idle? && Index(s.head) < |s.nodes| && bound >= 1
    ensures Leads(s, Checkout(t),
                  s.(head := Pack(Generation(s.head) + 1, s.nodes[Index(s.head)]),
                     updates := s.updates + 1,
                     threads := s.threads[t := Thread(Idle, s.threads[t].held + {Index(s.head)})]),
                  bound)
  {
    var steps := Checkout(t);
    var s1 := Apply(s, steps[0]);
    var s2 := Apply(s1, steps[1]);
    var s3 := Apply(s2, steps[2]);
    assert s3.threads == s.threads[t := Thread(Idle, s.threads[t].held + {Index(s.head)})];
    ThreeSteps(s, steps, s1, s2, s3, bound);
  }

  /** An uninterrupted release links the slot to the old top and makes it the new one. */
  lemma ReleasePutsTop(s: Pool, t: nat, slot: nat, bound: nat)
    requires t < |s.threads| && s.threads[t].pc.Idle? && slot in s.threads[t].held && slot < |s.nodes| && bound >= 1
    ensures Leads(s, Release(t, slot),
                  s.(nodes := s.nodes[slot := Index(s.head)],
                     head := Pack(Generation(s.head) + 1, slot),
                     updates := s.updates + 1,
                     threads := s.threads[t := Thread(Idle, s.threads[t].held - {slot})]),
                  bound)
  {
    var steps := Release(t, slot);
    var s1 := Apply(s, steps[0]);
    var s2 := Apply(s1, steps[1]);
    var s3 := Apply(s2, steps[2]);
    assert s3.threads == s.threads[t := Thread(Idle, s.threads[t].held - {slot})];
    ThreeSteps(s, steps, s1, s2, s3, bound);
  }

  lemma ThreeSteps(s: Pool, steps: seq<Step>, s1: Pool, s2: Pool, s3: Pool, bound: nat)
    requires |steps| == 3
    requires Enabled(s, steps[0]) && InTime(s, steps[0], bound) && s1 == Apply(s, steps[0])
    requires Enabled(s1, steps[1]) && InTime(s1, steps[1], bound) && s2 == Apply(s1, steps[1])
    requires Enabled(s2, steps[2]) && InTime(s2, steps[2], bound) && s3 == Apply(s2, steps[2])
    ensures Leads(s, steps, s3, bound)
  {
    assert steps[1..][0] == steps[1] && steps[1..][1..] == [steps[2]];
    assert Exec(s2, [steps[2]]) == Reached(s3) && AllInTime(s2, [steps[2]], bound);
    assert Exec(s1, steps[1..]) == Reached(s3) && AllInTime(s1, steps[1..], bound);
  }

  // ---------- The wrap-around run ----------

  /** Three slots, two threads: thread 0 has loaded the head and the link of slot 0 and waits. Thread 1
      holds slots 1 and 2; slot 0 is the only free slot. */
  function Waiting(updates: nat): Pool {
    Pool([3, 2, 3], Pack(updates, 0), updates, [Thread(PopLinked(0, 1, 0), {}), Thread(Idle, {1, 2})])
  }

  /** Thread 1 checks slot 0 out and puts it back, `n` times. */
  function Churn(n: nat): seq<Step> {
    if n == 0 then [] else Churn(n - 1) + (Checkout(1) + Release(1, 0))
  }

  /** The same with slot 0 in thread 1's hands. */
  function AllTaken(updates: nat): Pool {
    Pool([3, 2, 3], Pack(updates, 3), updates, [Thread(PopLinked(0, 1, 0), {}), Thread(Idle, {0, 1, 2})])
  }

  lemma PackCongruent(a: nat, b: nat, index: nat)
    requires a % U16 == b % U16
    ensures Pack(a, index) == Pack(b, index)
  {
  }

  lemma ChurnOut(updates: nat)
    ensures Leads(Waiting(updates), Checkout(1), AllTaken(updates + 1), U16 + 1)
  {
    var s := Waiting(updates);
    PackRoundTrip(updates, 0);
    CheckoutTakesTop(s, 1, U16 + 1);
    assert {1, 2} + {0} == {0, 1, 2};
    assert s.threads[1 := Thread(Idle, {1, 2} + {0})] == AllTaken(updates + 1).threads;
    PackCongruent(Generation(s.head) + 1, updates + 1, 3);
  }

  lemma ChurnIn(updates: nat)
    ensures Leads(AllTaken(updates), Release(1, 0), Waiting(updates + 1), U16 + 1)
  {
    var s := AllTaken(updates);
    PackRoundTrip(updates, 3);
    ReleasePutsTop(s, 1, 0, U16 + 1);
    assert {0, 1, 2} - {0} == {1, 2};
    assert s.nodes[0 := 3] == [3, 2, 3];
    assert s.threads[1 := Thread(Idle, {0, 1, 2} - {0})] == Waiting(updates + 1).threads;
    PackCongruent(Generation(s.head) + 1, updates + 1, 0);
  }

  lemma ChurnOnce(updates: nat)
    ensures Leads(Waiting(updates), Checkout(1) + Release(1, 0), Waiting(updates + 2), U16 + 1)
  {
    ChurnOut(updates);
    ChurnIn(updates + 1);
    LeadsAppend(Waiting(updates), Checkout(1), AllTaken(updates + 1), Release(1, 0), Waiting(updates + 2), U16 + 1);
  }

  lemma {:induction false} ChurnMany(updates: nat, n: nat)
    ensures Leads(Waiting(updates), Churn(n), Waiting(updates + 2 * n), U16 + 1)
  {
    if n > 0 {
      ChurnMany(updates, n - 1);
      ChurnOnce(updates + 2 * (n - 1));
      LeadsAppend(Waiting(updates), Churn(n - 1), Waiting(updates + 2 * (n - 1)),
                  Checkout(1) + Release(1, 0), Waiting(updates + 2 * n), U16 + 1);
    }
  }

  /** Thread 0 loads; thread 1 takes all three slots and puts slot 0 back. */
  function Opening(): seq<Step> {
    [BeginCheckout(0), LoadNext(0)] + Checkout(1) + Checkout(1) + Checkout(1) + Release(1, 0)
  }

  function Below(n: nat): set<nat> {
    if n == 0 then {} else Below(n - 1) + {n - 1}
  }

  /** The pool after thread 0's load and `n` checkouts of thread 1. */
  function Taken(n: nat): Pool {
    Pool([1, 2, 3], Pack(n, n), n, [Thread(PopLinked(0, 1, 0), {}), Thread(Idle, Below(n))])
  }

  lemma ThreadZeroLoads()
    ensures Leads(New(3, 2), [BeginCheckout(0), LoadNext(0)], Taken(0), U16 + 1)
  {
    var s := New(3, 2);
    var steps := [BeginCheckout(0), LoadNext(0)];
    var s1 := Apply(s, steps[0]);
    var s2 := Apply(s1, steps[1]);
    assert steps[1..] == [steps[1]] && steps[1..][1..] == [];
    assert Exec(s1, steps[1..]) == Reached(s2) && AllInTime(s1, steps[1..], U16 + 1);
    assert s2.nodes == [1, 2, 3];
    assert s2.threads == Taken(0).threads;
  }

  lemma TakeOne(n: nat)
    requires n < 3
    ensures Leads(Taken(n), Checkout(1), Taken(n + 1), U16 + 1)
  {
    PackRoundTrip(n, n);
    CheckoutTakesTop(Taken(n), 1, U16 + 1);
    assert Taken(n).threads[1 := Thread(Idle, Below(n) + {n})] == Taken(n + 1).threads;
  }

  lemma PutSlotZeroBack()
    ensures Leads(Taken(3), Release(1, 0), Waiting(4), U16 + 1)
  {
    var s := Taken(3);
    PackRoundTrip(3, 3);
    assert Below(3) == {0, 1, 2} by { assert Below(1) == {0} && Below(2) == {0, 1}; }
    assert Below(3) - {0} == {1, 2};
    ReleasePutsTop(s, 1, 0, U16 + 1);
    assert s.nodes[0 := 3] == [3, 2, 3];
    assert s.threads[1 := Thread(Idle, s.threads[1].held - {0})] == Waiting(4).threads;
  }

  lemma OpeningLeads()
    ensures Leads(New(3, 2), Opening(), Waiting(4), U16 + 1)
  {
    var first := [BeginCheckout(0), LoadNext(0)];
    ThreadZeroLoads();
    TakeOne(0);
    LeadsAppend(New(3, 2), first, Taken(0), Checkout(1), Taken(1), U16 + 1);
    TakeOne(1);
    LeadsAppend(New(3, 2), first + Checkout(1), Taken(1), Checkout(1), Taken(2), U16 + 1);
    TakeOne(2);
    LeadsAppend(New(3, 2), first + Checkout(1) + Checkout(1), Taken(2), Checkout(1), Taken(3), U16 + 1);
    PutSlotZeroBack();
    LeadsAppend(New(3, 2), first + Checkout(1) + Checkout(1) + Checkout(1), Taken(3), Release(1, 0), Waiting(4), U16 + 1);
  }

  /** Thread 0's stale exchange succeeds and leaves slot 1, held by thread 1, on top of the stack. */
  function Broken(): Pool {
    Pool([3, 2, 3], Pack(1, 1), U16 + 1, [Thread(Idle, {0}), Thread(Idle, {1, 2})])
  }

  lemma StaleExchangeSucceeds()
    ensures Leads(Waiting(U16), [PopExchange(0, false)], Broken(), U16 + 1)
  {
    var s := Waiting(U16);
    var step := PopExchange(0, false);
    assert Pack(U16, 0) == 0;
    var s1 := Apply(s, step);
    assert {} + {0} == {0};
    assert s1.threads == Broken().threads;
    assert s1 == Broken();
    assert [step][1..] == [];
  }

  function WrapSchedule(): seq<Step> {
    Opening() + Churn(32766) + [PopExchange(0, false)]
  }

  /** The run: every exchange falls within 65536 updates of its load, one of them exactly there. */
  lemma WrapBreaksThePool()
    ensures Leads(New(3, 2), WrapSchedule(), Broken(), U16 + 1)
    ensures !Sound(Broken())
  {
    OpeningLeads();
    ChurnMany(4, 32766);
    LeadsAppend(New(3, 2), Opening(), Waiting(4), Churn(32766), Waiting(U16), U16 + 1);
    StaleExchangeSucceeds();
    LeadsAppend(New(3, 2), Opening() + Churn(32766), Waiting(U16), [PopExchange(0, false)], Broken(), U16 + 1);
    PackRoundTrip(1, 1);
    if Sound(Broken()) {
      NoSlotHeldTwice(Broken(), 0, 1);
      assert false;
    }
  }

  /** One more checkout and the index of slot 1 is handed out a second time while it is held. */
  lemma SlotHandedOutTwice()
    ensures exists s :: Leads(Broken(), Checkout(0), s, U16 + 1) && 1 in s.threads[0].held && 1 in s.threads[1].held
  {
    PackRoundTrip(1, 1);
    CheckoutTakesTop(Broken(), 0, U16 + 1);
  }

  // ---------- The exact bound ----------

  ghost predicate SafeBound(bound: nat) {
    forall size: nat, threads: nat, steps: seq<Step> ::
      size < U48 && AllInTime(New(size, threads), steps, bound) ==>
      Exec(New(size, threads), steps).Reached? && Sound(Exec(New(size, threads), steps).pool)
  }

  lemma {:induction false} InTimeMonotone(s: Pool, steps: seq<Step>, bound: nat, bound': nat)
    requires AllInTime(s, steps, bound) && bound <= bound'
    ensures AllInTime(s, steps, bound')
    decreases |steps|
  {
    if steps != [] { InTimeMonotone(Apply(s, steps[0]), steps[1..], bound, bound'); }
  }

  /** Every run stays sound exactly when fewer than `bound` updates are allowed between a load and its
      exchange for some `bound` of at most 65536: the 16-bit generation is enough up to there and no further. */
  lemma SafeExactlyUpToOneGenerationCycle(bound: nat)
    ensures SafeBound(bound) <==> bound <= U16
  {
    if bound <= U16 {
      forall size: nat, threads: nat, steps: seq<Step> | size < U48 && AllInTime(New(size, threads), steps, bound)
        ensures Exec(New(size, threads), steps).Reached? && Sound(Exec(New(size, threads), steps).pool)
      {
        InTimeMonotone(New(size, threads), steps, bound, U16);
        EveryRunIsSound(size, threads, steps);
      }
    } else {
      WrapBreaksThePool();
      InTimeMonotone(New(3, 2), WrapSchedule(), U16 + 1, bound);
      assert Exec(New(3, 2), WrapSchedule()) == Reached(Broken());
    }
  }
}
