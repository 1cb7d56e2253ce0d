/** The lock-free slot pool: a stack of free slot indices threaded through `nodes`, with a 16-bit
    generation packed above a 48-bit index in the 64-bit `head`.

    Every atomic access is one step of a transition system over any number of threads; a weak
    compare-exchange may fail spuriously. `updates` and `loadedAt` are history variables: the number
    of successful head updates so far, and that number when a thread loaded the head it works with.
 */
module SlotPool {
  import opened Words

  // ---------- The tagged head ----------

  function Pack(generation: nat, index: nat): nat {
    (generation % U16) * U48 + index % U48
  }

  function Generation(head: nat): nat {
    (head / U48) % U16
  }

  function Index(head: nat): nat {
    head % U48
  }

  lemma PackRoundTrip(generation: nat, index: nat)
    requires index < U48
    ensures Generation(Pack(generation, index)) == generation % U16
    ensures Index(Pack(generation, index)) == index
    ensures Pack(generation, index) < U64
  {
  }

  lemma UnpackRoundTrip(head: nat)
    requires head < U64
    ensures Pack(Generation(head), Index(head)) == head
  {
  }

  // ---------- State ----------

  /** Where a thread stands inside `checkout` or `release`. */
  datatype Pc =
    | Idle
    | PopLoaded(head: nat, loadedAt: nat)
    | PopLinked(head: nat, next: nat, loadedAt: nat)
    | PushLoaded(slot: nat, head: nat, loadedAt: nat)
    | PushLinked(slot: nat, head: nat, loadedAt: nat)

  /** A thread and the slots whose guards it holds. */
  datatype Thread = Thread(pc: Pc, held: set<nat>)

  datatype Pool = Pool(nodes: seq<nat>, head: nat, updates: nat, threads: seq<Thread>)

  /** A new pool: slot `i` links to `i + 1`, and the last links to the sentinel `size`. */
  function New(size: nat, threads: nat): Pool {
    Pool(seq(size, i => i + 1), Pack(0, 0), 0, seq(threads, _ => Thread(Idle, {})))
  }

  datatype Step =
    | BeginCheckout(t: nat)               // load the head
    | LoadNext(t: nat)                    // read the link, or give up on an empty stack
    | PopExchange(t: nat, spurious: bool)
    | BeginRelease(t: nat, slot: nat)     // a guard is dropped: load the head
    | StoreNext(t: nat)
    | PushExchange(t: nat, spurious: bool)

  predicate Enabled(s: Pool, step: Step) {
    step.t < |s.threads| &&
    var th := s.threads[step.t];
    match step
    case BeginCheckout(_) => th.pc.Idle?
    case LoadNext(_) => th.pc.PopLoaded?
    case PopExchange(_, _) => th.pc.PopLinked?
    case BeginRelease(_, slot) => th.pc.Idle? && slot in th.held
    case StoreNext(_) => th.pc.PushLoaded? && th.pc.slot < |s.nodes|
    case PushExchange(_, _) => th.pc.PushLinked?
  }

  function SetThread(s: Pool, t: nat, th: Thread): Pool
    requires t < |s.threads|
  {
    s.(threads := s.threads[t := th])
  }

  function Apply(s: Pool, step: Step): Pool
    requires Enabled(s, step)
  {
    var t := step.t;
    var th := s.threads[t];
    match step
    case BeginCheckout(_) =>
      SetThread(s, t, th.(pc := PopLoaded(s.head, s.updates)))
    case LoadNext(_) =>
      var index := Index(th.pc.head);
      if index >= |s.nodes| then SetThread(s, t, th.(pc := Idle))
      else SetThread(s, t, th.(pc := PopLinked(th.pc.head, s.nodes[index], th.pc.loadedAt)))
    case PopExchange(_, spurious) =>
      if s.head == th.pc.head && !spurious then
        var th' := Thread(Idle, th.held + {Index(th.pc.head)});
        SetThread(s, t, th').(head := Pack(Generation(th.pc.head) + 1, th.pc.next), updates := s.updates + 1)
      else
        SetThread(s, t, th.(pc := PopLoaded(s.head, s.updates)))
    case BeginRelease(_, slot) =>
      SetThread(s, t, Thread(PushLoaded(slot, s.head, s.updates), th.held - {slot}))
    case StoreNext(_) =>
      var th' := th.(pc := PushLinked(th.pc.slot, th.pc.head, th.pc.loadedAt));
      SetThread(s, t, th').(nodes := s.nodes[th.pc.slot := Index(th.pc.head)])
    case PushExchange(_, spurious) =>
      if s.head == th.pc.head && !spurious then
        SetThread(s, t, th.(pc := Idle)).(head := Pack(Generation(th.pc.head) + 1, th.pc.slot), updates := s.updates + 1)
      else
        SetThread(s, t, th.(pc := PushLoaded(th.pc.slot, s.head, s.updates)))
  }

  /** At most `bound - 1` successful head updates fall between a thread's load of the head and its
      compare-exchange. */
  predicate InTime(s: Pool, step: Step, bound: nat)
    requires Enabled(s, step)
  {
    step.PopExchange? || step.PushExchange? ==> s.updates - s.threads[step.t].pc.loadedAt < bound
  }

  datatype Outcome = Stuck | Reached(pool: Pool)

  /** Runs a schedule; `Stuck` when it names a step that is not enabled. */
  function Exec(s: Pool, steps: seq<Step>): Outcome
    decreases |steps|
  {
    if steps == [] then Reached(s)
    else if Enabled(s, steps[0]) then Exec(Apply(s, steps[0]), steps[1..])
    else Stuck
  }

  /** Every compare-exchange of the schedule is in time. */
  predicate AllInTime(s: Pool, steps: seq<Step>, bound: nat)
    decreases |steps|
  {
    steps == [] ||
    (Enabled(s, steps[0]) && InTime(s, steps[0], bound) && AllInTime(Apply(s, steps[0]), steps[1..], bound))
  }

  // ---------- What every state keeps ----------

  /** The slots a thread owns: those it holds and the one it is putting back. */
  function Owned(th: Thread): set<nat> {
    th.held + (if th.pc.PushLoaded? || th.pc.PushLinked? then {th.pc.slot} else {})
  }

  /** Following `nodes` from `start` visits exactly `free`, in order, and then the sentinel. */
  ghost predicate Chain(nodes: seq<nat>, start: nat, free: seq<nat>)
    decreases |free|
  {
    if free == [] then start == |nodes|
    else start == free[0] && start < |nodes| && Chain(nodes, nodes[start], free[1..])
  }

  ghost predicate Distinct(free: seq<nat>) {
    forall i, j :: 0 <= i < j < |free| ==> free[i] != free[j]
  }

  ghost predicate FreeStack(s: Pool, free: seq<nat>) {
    && |s.nodes| < U48
    && Chain(s.nodes, Index(s.head), free)
    && Distinct(free)
    && (forall i :: 0 <= i < |s.nodes| ==> s.nodes[i] <= |s.nodes|)
    && s.head == Pack(s.updates % U16, Index(s.head))
  }

  ghost predicate OwnsUsed(th: Thread, free: seq<nat>, size: nat) {
    forall x :: x in Owned(th) ==> x < size && x !in free
  }

  /** No thread owns a free slot, and no two threads own the same slot. */
  ghost predicate Exclusive(threads: seq<Thread>, free: seq<nat>, size: nat) {
    && (forall t :: 0 <= t < |threads| ==> OwnsUsed(threads[t], free, size))
    && (forall t, u :: 0 <= t < u < |threads| ==> Owned(threads[t]) !! Owned(threads[u]))
    && (forall t :: 0 <= t < |threads| && (threads[t].pc.PushLoaded? || threads[t].pc.PushLinked?)
                    ==> threads[t].pc.slot !in threads[t].held)
  }

  /** Every slot is free or owned. */
  ghost predicate Covered(threads: seq<Thread>, free: seq<nat>, size: nat) {
    forall x: nat :: x < size ==> x in free || OwnedBySome(threads, x)
  }

  ghost predicate OwnedBySome(threads: seq<Thread>, x: nat) {
    exists t :: 0 <= t < |threads| && x in Owned(threads[t])
  }

  /** A head loaded when `at` updates had happened is stale unless none happened since. */
  ghost predicate HeadOk(s: Pool, head: nat, at: nat) {
    && at <= s.updates
    && head < U64
    && Generation(head) == at % U16
    && Index(head) <= |s.nodes|
    && (at == s.updates ==> head == s.head)
  }

  ghost predicate PcOk(s: Pool, pc: Pc) {
    match pc
    case Idle => true
    case PopLoaded(head, at) => HeadOk(s, head, at)
    case PopLinked(head, next, at) =>
      && HeadOk(s, head, at) && Index(head) < |s.nodes| && next <= |s.nodes|
      && (at == s.updates ==> next == s.nodes[Index(head)])
    case PushLoaded(slot, head, at) => HeadOk(s, head, at) && slot < |s.nodes|
    case PushLinked(slot, head, at) =>
      HeadOk(s, head, at) && slot < |s.nodes| && s.nodes[slot] == Index(head)
  }

  ghost predicate Inv(s: Pool, free: seq<nat>) {
    && FreeStack(s, free)
    && Exclusive(s.threads, free, |s.nodes|)
    && Covered(s.threads, free, |s.nodes|)
    && (forall t :: 0 <= t < |s.threads| ==> PcOk(s, s.threads[t].pc))
  }

  // ---------- Chains ----------

  lemma {:induction false} ChainBounds(nodes: seq<nat>, start: nat, free: seq<nat>)
    requires Chain(nodes, start, free)
    ensures start <= |nodes|
    ensures forall x :: x in free ==> x < |nodes|
    ensures start < |nodes| <==> free != []
    decreases |free|
  {
    if free != [] {
      ChainBounds(nodes, nodes[start], free[1..]);
      assert free == [free[0]] + free[1..];
    }
  }

  /** Rewriting the link of a slot that is not free leaves the free stack alone. */
  lemma {:induction false} ChainFrame(nodes: seq<nat>, start: nat, free: seq<nat>, slot: nat, link: nat)
    requires Chain(nodes, start, free) && slot < |nodes| && slot !in free
    ensures Chain(nodes[slot := link], start, free)
    decreases |free|
  {
    if free != [] { ChainFrame(nodes, nodes[start], free[1..], slot, link); }
  }

  lemma {:induction false} InitialChain(size: nat, start: nat)
    requires start <= size
    ensures Chain(seq(size, i => i + 1), start, seq(size - start, i => start + i))
    decreases size - start
  {
    var free := seq(size - start, i => start + i);
    if start < size {
      InitialChain(size, start + 1);
      assert free[1..] == seq(size - (start + 1), i => start + 1 + i);
    }
  }

  lemma InitialInv(size: nat, threads: nat)
    requires size < U48
    ensures Inv(New(size, threads), seq(size, i => i))
  {
    var s := New(size, threads);
    InitialChain(size, 0);
    var free := seq(size, i => i);
    assert free == seq(size - 0, i => 0 + i);
    assert FreeStack(s, free);
    assert forall t :: 0 <= t < |s.threads| ==> Owned(s.threads[t]) == {};
    assert Exclusive(s.threads, free, size);
    forall x: nat | x < size ensures x in free { assert free[x] == x; }
  }

  // ---------- One step at a time ----------

  /** The compare-exchange succeeds in time only on a head that has not changed since its load. */
  lemma NoAba(s: Pool, free: seq<nat>, head: nat, at: nat)
    requires FreeStack(s, free) && HeadOk(s, head, at)
    requires s.head == head && s.updates - at < U16
    ensures at == s.updates
  {
    assert Generation(s.head) == s.updates % U16 by {
      assert Index(s.head) < U48;
      PackRoundTrip(s.updates % U16, Index(s.head));
    }
  }

  lemma OwnershipAfter(threads: seq<Thread>, free: seq<nat>, size: nat, t: nat, th: Thread)
    requires Exclusive(threads, free, size) && Covered(threads, free, size)
    requires t < |threads| && Owned(th) == Owned(threads[t])
    requires th.pc.PushLoaded? || th.pc.PushLinked? ==> th.pc.slot !in th.held
    ensures Exclusive(threads[t := th], free, size) && Covered(threads[t := th], free, size)
  {
    CoverAfter(threads, free, size, t, th);
    var threads' := threads[t := th];
    assert forall u :: 0 <= u < |threads| ==> Owned(threads'[u]) == Owned(threads[u]);
    forall u | 0 <= u < |threads'| ensures OwnsUsed(threads'[u], free, size) {
      assert OwnsUsed(threads[u], free, size);
    }
    forall u, v | 0 <= u < v < |threads'| ensures Owned(threads'[u]) !! Owned(threads'[v]) {
      assert Owned(threads[u]) !! Owned(threads[v]);
    }
  }

  lemma CoverAfter(threads: seq<Thread>, free: seq<nat>, size: nat, t: nat, th: Thread)
    requires Covered(threads, free, size)
    requires t < |threads| && Owned(threads[t]) <= Owned(th)
    ensures Covered(threads[t := th], free, size)
  {
    forall x: nat | x < size ensures x in free || OwnedBySome(threads[t := th], x) {
      if x !in free {
        var u :| 0 <= u < |threads| && x in Owned(threads[u]);
        assert x in Owned(threads[t := th][u]);
      }
    }
  }

  lemma LoadKeeps(s: Pool, free: seq<nat>, t: nat, th: Thread)
    requires Inv(s, free) && t < |s.threads|
    requires Owned(th) == Owned(s.threads[t])
    requires th.pc.PushLoaded? || th.pc.PushLinked? ==> th.pc.slot !in th.held
    requires PcOk(s, th.pc)
    ensures Inv(SetThread(s, t, th), free)
  {
    OwnershipAfter(s.threads, free, |s.nodes|, t, th);
    var s' := SetThread(s, t, th);
    forall u | 0 <= u < |s'.threads| ensures PcOk(s', s'.threads[u].pc) {
      assert PcOk(s, s'.threads[u].pc);
    }
  }

  lemma CurrentHeadOk(s: Pool, free: seq<nat>)
    requires FreeStack(s, free)
    ensures HeadOk(s, s.head, s.updates)
  {
    ChainBounds(s.nodes, Index(s.head), free);
    PackRoundTrip(s.updates % U16, Index(s.head));
  }

  lemma StoreKeeps(s: Pool, free: seq<nat>, t: nat)
    requires Inv(s, free) && Enabled(s, StoreNext(t))
    ensures Inv(Apply(s, StoreNext(t)), free)
  {
    var th := s.threads[t];
    var slot, link := th.pc.slot, Index(th.pc.head);
    var s' := Apply(s, StoreNext(t));
    assert slot in Owned(th);
    ChainFrame(s.nodes, Index(s.head), free, slot, link);
    OwnershipAfter(s.threads, free, |s.nodes|, t, s'.threads[t]);
    forall u | 0 <= u < |s'.threads| ensures PcOk(s', s'.threads[u].pc) {
      if u != t { StoreKeepsOther(s, free, t, u); }
    }
  }

  lemma DistinctOwners(threads: seq<Thread>, free: seq<nat>, size: nat, t: nat, u: nat)
    requires Exclusive(threads, free, size) && t < |threads| && u < |threads| && t != u
    ensures Owned(threads[t]) !! Owned(threads[u])
  {
    if u < t { assert Owned(threads[u]) !! Owned(threads[t]); }
  }

  lemma StoreKeepsOther(s: Pool, free: seq<nat>, t: nat, u: nat)
    requires Inv(s, free) && Enabled(s, StoreNext(t)) && u < |s.threads| && u != t
    ensures PcOk(Apply(s, StoreNext(t)), s.threads[u].pc)
  {
    var slot := s.threads[t].pc.slot;
    var pc := s.threads[u].pc;
    assert slot in Owned(s.threads[t]);
    if pc.PushLinked? {
      assert pc.slot in Owned(s.threads[u]);
      DistinctOwners(s.threads, free, |s.nodes|, t, u);
    }
    if pc.PopLinked? && pc.loadedAt == s.updates {
      ChainBounds(s.nodes, Index(s.head), free);
      assert free[0] == Index(s.head) && free[0] in free;
    }
  }

  /** A head update makes every other load stale, which costs no thread anything it relied on. */
  lemma HeadUpdateKeepsPcs(s: Pool, s': Pool, t: nat)
    requires forall u :: 0 <= u < |s.threads| ==> PcOk(s, s.threads[u].pc)
    requires s'.nodes == s.nodes && s'.updates == s.updates + 1 && t < |s.threads|
    requires |s'.threads| == |s.threads| && s'.threads[t].pc.Idle?
    requires forall u :: 0 <= u < |s.threads| && u != t ==> s'.threads[u] == s.threads[u]
    ensures forall u :: 0 <= u < |s'.threads| ==> PcOk(s', s'.threads[u].pc)
  {
    forall u | 0 <= u < |s'.threads| ensures PcOk(s', s'.threads[u].pc) {
      assert PcOk(s, s.threads[u].pc);
    }
  }

  /** A successful pop moves the top of the free stack to the popping thread. */
  lemma PopKeeps(s: Pool, free: seq<nat>, t: nat)
    requires Inv(s, free) && Enabled(s, PopExchange(t, false))
    requires s.head == s.threads[t].pc.head && s.threads[t].pc.loadedAt == s.updates
    ensures free != [] && free[0] == Index(s.head)
    ensures Inv(Apply(s, PopExchange(t, false)), free[1..])
  {
    var pc := s.threads[t].pc;
    var s' := Apply(s, PopExchange(t, false));
    assert PcOk(s, pc);
    ChainBounds(s.nodes, Index(s.head), free);
    PackRoundTrip(Generation(pc.head) + 1, pc.next);
    NextGeneration(s, free);
    PopOwnership(s.threads, free, |s.nodes|, t, s'.threads[t]);
    HeadUpdateKeepsPcs(s, s', t);
  }

  lemma NextGeneration(s: Pool, free: seq<nat>)
    requires FreeStack(s, free)
    ensures (Generation(s.head) + 1) % U16 == (s.updates + 1) % U16
  {
    CurrentHeadOk(s, free);
  }

  lemma PopOwnership(threads: seq<Thread>, free: seq<nat>, size: nat, t: nat, th: Thread)
    requires Exclusive(threads, free, size) && Covered(threads, free, size) && Distinct(free)
    requires free != [] && free[0] < size && t < |threads|
    requires threads[t].pc.PopLinked?
    requires th == Thread(Idle, threads[t].held + {free[0]})
    ensures Exclusive(threads[t := th], free[1..], size)
    ensures Covered(threads[t := th], free[1..], size)
    ensures Distinct(free[1..])
  {
    var threads', rest := threads[t := th], free[1..];
    assert forall x :: x in rest ==> x in free;
    assert free == [free[0]] + rest;
    assert free[0] !in rest by {
      forall k | 0 <= k < |rest| ensures rest[k] != free[0] { assert rest[k] == free[k + 1]; }
    }
    forall u | 0 <= u < |threads'| ensures OwnsUsed(threads'[u], rest, size) {
      assert OwnsUsed(threads[u], free, size);
    }
    forall u, v | 0 <= u < v < |threads'| ensures Owned(threads'[u]) !! Owned(threads'[v]) {
      assert Owned(threads[u]) !! Owned(threads[v]);
      assert OwnsUsed(threads[u], free, size) && OwnsUsed(threads[v], free, size);
    }
    CoverAfter(threads, free, size, t, th);
    forall x: nat | x < size ensures x in rest || OwnedBySome(threads', x) {
      if x == free[0] { assert x in Owned(threads'[t]); }
    }
  }

  /** A successful push moves the released slot to the top of the free stack. */
  lemma PushKeeps(s: Pool, free: seq<nat>, t: nat)
    requires Inv(s, free) && Enabled(s, PushExchange(t, false))
    requires s.head == s.threads[t].pc.head && s.threads[t].pc.loadedAt == s.updates
    ensures Inv(Apply(s, PushExchange(t, false)), [s.threads[t].pc.slot] + free)
  {
    var pc := s.threads[t].pc;
    var s' := Apply(s, PushExchange(t, false));
    var free' := [pc.slot] + free;
    assert PcOk(s, pc);
    PushStack(s, free, t);
    PushOwnership(s.threads, free, |s.nodes|, t, s'.threads[t]);
    HeadUpdateKeepsPcs(s, s', t);
  }

  lemma PushStack(s: Pool, free: seq<nat>, t: nat)
    requires Inv(s, free) && Enabled(s, PushExchange(t, false))
    requires s.head == s.threads[t].pc.head && s.threads[t].pc.loadedAt == s.updates
    ensures FreeStack(Apply(s, PushExchange(t, false)), [s.threads[t].pc.slot] + free)
  {
    var pc := s.threads[t].pc;
    assert PcOk(s, pc);
    PackRoundTrip(Generation(pc.head) + 1, pc.slot);
    NextGeneration(s, free);
    assert ([pc.slot] + free)[1..] == free;
    PushOwnership(s.threads, free, |s.nodes|, t, Apply(s, PushExchange(t, false)).threads[t]);
  }

  lemma PushOwnership(threads: seq<Thread>, free: seq<nat>, size: nat, t: nat, th: Thread)
    requires Exclusive(threads, free, size) && Covered(threads, free, size) && Distinct(free)
    requires t < |threads| && threads[t].pc.PushLinked? && th == threads[t].(pc := Idle)
    ensures Exclusive(threads[t := th], [threads[t].pc.slot] + free, size)
    ensures Covered(threads[t := th], [threads[t].pc.slot] + free, size)
    ensures Distinct([threads[t].pc.slot] + free)
  {
    var slot := threads[t].pc.slot;
    var threads', free' := threads[t := th], [slot] + free;
    assert slot in Owned(threads[t]) && OwnsUsed(threads[t], free, size);
    forall u | 0 <= u < |threads'| ensures OwnsUsed(threads'[u], free', size) {
      assert OwnsUsed(threads[u], free, size);
      if u != t { DistinctOwners(threads, free, size, t, u); }
    }
    forall u, v | 0 <= u < v < |threads'| ensures Owned(threads'[u]) !! Owned(threads'[v]) {
      assert Owned(threads[u]) !! Owned(threads[v]);
    }
    forall x: nat | x < size ensures x in free' || OwnedBySome(threads', x) {
      if x in free || x == slot {
        assert x in free';
      } else {
        var u :| 0 <= u < |threads| && x in Owned(threads[u]);
        assert x in Owned(threads'[u]);
      }
    }
  }

  /** Every step taken in time keeps the invariant, for some free stack. */
  lemma StepKeeps(s: Pool, free: seq<nat>, step: Step) returns (free': seq<nat>)
    requires Inv(s, free) && Enabled(s, step) && InTime(s, step, U16)
    ensures Inv(Apply(s, step), free')
  {
    var t := step.t;
    var th := s.threads[t];
    assert PcOk(s, th.pc);
    CurrentHeadOk(s, free);
    free' := free;
    match step
    case BeginCheckout(_) => LoadKeeps(s, free, t, th.(pc := PopLoaded(s.head, s.updates)));
    case LoadNext(_) => LoadKeeps(s, free, t, Apply(s, step).threads[t]);
    case PopExchange(_, spurious) =>
      if s.head == th.pc.head && !spurious {
        NoAba(s, free, th.pc.head, th.pc.loadedAt);
        PopKeeps(s, free, t);
        free' := free[1..];
      } else {
        LoadKeeps(s, free, t, th.(pc := PopLoaded(s.head, s.updates)));
      }
    case BeginRelease(_, slot) =>
      assert slot in Owned(th) && OwnsUsed(th, free, |s.nodes|);
      LoadKeeps(s, free, t, Thread(PushLoaded(slot, s.head, s.updates), th.held - {slot}));
    case StoreNext(_) => StoreKeeps(s, free, t);
    case PushExchange(_, spurious) =>
      if s.head == th.pc.head && !spurious {
        NoAba(s, free, th.pc.head, th.pc.loadedAt);
        PushKeeps(s, free, t);
        free' := [th.pc.slot] + free;
      } else {
        LoadKeeps(s, free, t, th.(pc := PushLoaded(th.pc.slot, s.head, s.updates)));
      }
  }

  lemma {:induction false} RunKeeps(s: Pool, free: seq<nat>, steps: seq<Step>) returns (free': seq<nat>)
    requires Inv(s, free) && AllInTime(s, steps, U16)
    ensures Exec(s, steps).Reached? && Inv(Exec(s, steps).pool, free')
    decreases |steps|
  {
    free' := free;
    if steps != [] {
      free' := StepKeeps(s, free, steps[0]);
      free' := RunKeeps(Apply(s, steps[0]), free', steps[1..]);
    }
  }

  // ---------- Main results ----------

  /** What the pool promises of a state: the list from the head is a duplicate-free path to the
      sentinel, its slots and the owned slots partition the pool, and no slot is held twice. */
  ghost predicate Sound(s: Pool) {
    exists free ::
      && Chain(s.nodes, Index(s.head), free)
      && Distinct(free)
      && Covered(s.threads, free, |s.nodes|)
      && Exclusive(s.threads, free, |s.nodes|)
  }

  /** Under every interleaving of any number of threads whose compare-exchanges are in time. */
  lemma {:induction false} EveryRunIsSound(size: nat, threads: nat, steps: seq<Step>)
    requires size < U48 && AllInTime(New(size, threads), steps, U16)
    ensures Exec(New(size, threads), steps).Reached? && Sound(Exec(New(size, threads), steps).pool)
  {
    InitialInv(size, threads);
    var free := RunKeeps(New(size, threads), seq(size, i => i), steps);
  }

  /** In a sound state no two guards exist for one slot, and the slot on top of the stack, the next to
      be handed out, is not held. */
  lemma NoSlotHeldTwice(s: Pool, t: nat, u: nat)
    requires Sound(s) && t < u < |s.threads|
    ensures s.threads[t].held !! s.threads[u].held
    ensures Index(s.head) !in s.threads[t].held && Index(s.head) !in s.threads[u].held
  {
    var free :| && Chain(s.nodes, Index(s.head), free)
                && Distinct(free)
                && Covered(s.threads, free, |s.nodes|)
                && Exclusive(s.threads, free, |s.nodes|);
    assert Owned(s.threads[t]) !! Owned(s.threads[u]);
    assert OwnsUsed(s.threads[t], free, |s.nodes|) && OwnsUsed(s.threads[u], free, |s.nodes|);
    ChainBounds(s.nodes, Index(s.head), free);
    assert free != [] ==> free[0] in free;
  }
}
