/** The pool as the object its callers see, run by one thread: `checkout`, `release` and the guard's
    drop, with the compare-exchange retry loops. `spurious` is how often the weak exchange fails
    without cause before it is let through. The specification is the stack of free slots.
 */
module SlotPoolObject {
  import opened Words
  import opened SlotPool

  datatype ZeroizePolicy = Never | OnRelease

  datatype Checkout = Exhausted | Guard(index: nat)

  class StaticSlotPool {
    const memory: array2<nat>
    const nodes: array<nat>
    const policy: ZeroizePolicy
    var head: nat
    var successfulCheckouts: nat
    var poolExhaustion: nat
    /** The free slots, top of the stack first. */
    ghost var free: seq<nat>

    ghost predicate Valid()
      reads this, nodes
    {
      && memory.Length0 == nodes.Length < U48
      && head < U64
      && Chain(nodes[..], Index(head), free)
      && Distinct(free)
      && (forall i :: 0 <= i < nodes.Length ==> nodes[i] <= nodes.Length)
    }

    constructor (size: nat, slotSize: nat, policy: ZeroizePolicy)
      requires size < U48
      ensures Valid() && fresh(nodes) && fresh(memory)
      ensures nodes.Length == size && memory.Length1 == slotSize && this.policy == policy
      ensures free == seq(size, i => i)
      ensures forall i, j :: 0 <= i < size && 0 <= j < slotSize ==> memory[i, j] == 0
      ensures successfulCheckouts == 0 && poolExhaustion == 0
    {
      this.policy := policy;
      memory := new nat[size, slotSize]((i, j) => 0);
      nodes := new nat[size](i => i + 1);
      head := Pack(0, 0);
      successfulCheckouts, poolExhaustion := 0, 0;
      free := seq(size, i => i);
      new;
      InitialChain(size, 0);
      assert nodes[..] == seq(size, i => i + 1);
      assert free == seq(size - 0, i => 0 + i);
    }

    /** Takes the top free slot; fails exactly when none is free. */
    method CheckOut(spurious: nat) returns (r: Checkout)
      requires Valid()
      modifies this
      ensures Valid()
      ensures old(free) == [] ==>
        r == Exhausted && free == [] && poolExhaustion == old(poolExhaustion) + 1
        && successfulCheckouts == old(successfulCheckouts)
      ensures old(free) != [] ==>
        r == Guard(old(free)[0]) && free == old(free)[1..] && r.index !in free
        && successfulCheckouts == old(successfulCheckouts) + 1 && poolExhaustion == old(poolExhaustion)
    {
      var current, failures := head, spurious;
      ChainBounds(nodes[..], Index(head), free);
      while true
        invariant current == head == old(head) && free == old(free) && Valid()
        invariant successfulCheckouts == old(successfulCheckouts) && poolExhaustion == old(poolExhaustion)
        decreases failures
      {
        var index := Index(current);
        if index >= nodes.Length {
          poolExhaustion := poolExhaustion + 1;
          return Exhausted;
        }
        var next := nodes[index];
        if head == current && failures == 0 {
          PackRoundTrip(Generation(current) + 1, next);
          head := Pack(Generation(current) + 1, next);
          TopIsNotBelow(free);
          free := free[1..];
          successfulCheckouts := successfulCheckouts + 1;
          return Guard(index);
        }
        current, failures := head, failures - 1;
      }
    }

    /** Puts a slot that is not free on top of the stack. */
    method Release(index: nat, spurious: nat)
      requires Valid() && index < nodes.Length && index !in free
      modifies this`head, this`free, nodes
      ensures Valid() && free == [index] + old(free)
    {
      var current, failures := head, spurious;
      ChainBounds(nodes[..], Index(head), free);
      while true
        invariant current == head == old(head) && free == old(free) && Valid()
        decreases failures
      {
        ghost var links := nodes[..];
        ChainFrame(links, Index(head), free, index, Index(current));
        nodes[index] := Index(current);
        assert nodes[..] == links[index := Index(current)];
        if head == current && failures == 0 {
          PackRoundTrip(Generation(current) + 1, index);
          head := Pack(Generation(current) + 1, index);
          free := [index] + free;
          assert free[1..] == old(free);
          return;
        }
        current, failures := head, failures - 1;
      }
    }

    /** Dropping a guard: the slot's bytes are zeroed first if the policy says so. */
    method DropGuard(index: nat, spurious: nat)
      requires Valid() && index < nodes.Length && index !in free
      modifies this`head, this`free, nodes, memory
      ensures Valid() && free == [index] + old(free)
      ensures forall i, j :: 0 <= i < memory.Length0 && 0 <= j < memory.Length1 ==>
                memory[i, j] == if policy.OnRelease? && i == index then 0 else old(memory[i, j])
    {
      if policy == OnRelease {
        for j := 0 to memory.Length1
          invariant forall i, k :: 0 <= i < memory.Length0 && 0 <= k < memory.Length1 ==>
                      memory[i, k] == if i == index && k < j then 0 else old(memory[i, k])
          modifies memory
        {
          memory[index, j] := 0;
        }
      }
      Release(index, spurious);
    }
  }

  lemma TopIsNotBelow(free: seq<nat>)
    requires Distinct(free) && free != []
    ensures free[0] !in free[1..] && Distinct(free[1..])
  {
  }

  /** Slots come back in last-in first-out order: what was dropped last is checked out first, and the
      rest of the stack is as it was before the drop. */
  method DropThenCheckOut(pool: StaticSlotPool, index: nat, spurious: nat) returns (r: Checkout)
    requires pool.Valid() && index < pool.nodes.Length && index !in pool.free
    modifies pool, pool.nodes, pool.memory
    ensures pool.Valid() && r == Guard(index) && pool.free == old(pool.free)
    ensures pool.policy.Never? ==>
              forall j :: 0 <= j < pool.memory.Length1 ==> pool.memory[index, j] == old(pool.memory[index, j])
    ensures pool.policy.OnRelease? ==>
              forall j :: 0 <= j < pool.memory.Length1 ==> pool.memory[index, j] == 0
  {
    pool.DropGuard(index, spurious);
    r := pool.CheckOut(spurious);
  }
}
