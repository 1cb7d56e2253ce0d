/** Exactly which packets are passed on, by the record of the run: the converse of the limits. Also which addresses
    are blocked, from the lookups themselves, and what a sweep leaves, from what could still be bound.
 */
module ForwardingRates {
  import opened Words
  import opened Forwarding
  import opened ForwardingRuns
  import Blocklist
  import Server = Relay

  // ---------- The bucket as a function of the record ----------

  /** Bytes forwarded in a session at time `t1` or later. */
  function Since(forwards: seq<Forward>, session: nat, t1: nat): nat {
    if forwards == [] then 0
    else
      var last := forwards[|forwards| - 1];
      Since(forwards[..|forwards| - 1], session, t1) + if last.session == session && last.at >= t1 then last.len else 0
  }

  lemma {:induction false} SinceSnoc(forwards: seq<Forward>, f: Forward, session: nat, t1: nat)
    ensures Since(forwards + [f], session, t1)
            == Since(forwards, session, t1) + if f.session == session && f.at >= t1 then f.len else 0
  {
    assert (forwards + [f])[..|forwards|] == forwards;
  }

  lemma {:induction false} SinceLater(forwards: seq<Forward>, session: nat, t1: nat)
    requires forall k :: 0 <= k < |forwards| && forwards[k].session == session ==> forwards[k].at < t1
    ensures Since(forwards, session, t1) == 0
  {
    if forwards != [] { SinceLater(forwards[..|forwards| - 1], session, t1); }
  }

  /** What the session may still send at `at` as far as the stretch from `t1` on is concerned. */
  function Allowance(forwards: seq<Forward>, session: nat, rate: nat, t1: nat, at: nat): int {
    1000 * rate + rate * (at - t1) - 1000 * Since(forwards, session, t1)
  }

  /** No stretch from `from` on allows less than the bucket holds. */
  ghost predicate Covered(b: Bucket, forwards: seq<Forward>, session: nat, rate: nat, from: nat) {
    forall t1: nat :: from <= t1 <= b.lastRefill ==> b.tokens <= Allowance(forwards, session, rate, t1, b.lastRefill)
  }

  /** And the one that starts at `t1` no more. */
  ghost predicate Attained(b: Bucket, forwards: seq<Forward>, session: nat, rate: nat, t1: nat) {
    b.tokens == Allowance(forwards, session, rate, t1, b.lastRefill)
  }

  /** The bucket holds the least any stretch allows. */
  ghost predicate Least(b: Bucket, forwards: seq<Forward>, session: nat, rate: nat, from: nat) {
    && from <= b.lastRefill
    && (forall k :: 0 <= k < |forwards| && forwards[k].session == session ==> forwards[k].at <= b.lastRefill)
    && Covered(b, forwards, session, rate, from)
    && exists t1: nat :: from <= t1 <= b.lastRefill && Attained(b, forwards, session, rate, t1)
  }

  lemma AllowanceLater(forwards: seq<Forward>, session: nat, rate: nat, t1: nat, at: nat, later: nat)
    requires t1 <= at <= later
    ensures Allowance(forwards, session, rate, t1, later) == Allowance(forwards, session, rate, t1, at) + (later - at) * rate
  {
    assert rate * (later - t1) == rate * (at - t1) + (later - at) * rate;
  }

  lemma {:induction false} RefillCovered(b: Bucket, forwards: seq<Forward>, session: nat, rate: nat, from: nat, now: nat, t1: nat)
    requires Least(b, forwards, session, rate, from) && b.lastRefill <= now && from <= t1 <= now
    ensures Refill(b, rate, now).tokens <= Allowance(forwards, session, rate, t1, now)
  {
    if t1 <= b.lastRefill {
      AllowanceLater(forwards, session, rate, t1, b.lastRefill, now);
    } else {
      SinceLater(forwards, session, t1);
      assert rate * (now - t1) >= 0;
    }
  }

  lemma {:induction false} RefillAttained(b: Bucket, forwards: seq<Forward>, session: nat, rate: nat, from: nat, now: nat) returns (t1: nat)
    requires Least(b, forwards, session, rate, from) && b.lastRefill <= now
    ensures from <= t1 <= now && Attained(Refill(b, rate, now), forwards, session, rate, t1)
  {
    t1 :| from <= t1 <= b.lastRefill && Attained(b, forwards, session, rate, t1);
    AllowanceLater(forwards, session, rate, t1, b.lastRefill, now);
    assert b.tokens <= Allowance(forwards, session, rate, b.lastRefill, b.lastRefill) <= 1000 * rate;
    if b.tokens + (now - b.lastRefill) * rate > 1000 * rate {
      t1 := now;
      SinceLater(forwards, session, now);
    }
  }

  lemma {:induction false} RefillLeast(b: Bucket, forwards: seq<Forward>, session: nat, rate: nat, from: nat, now: nat)
    requires Least(b, forwards, session, rate, from) && b.lastRefill <= now
    ensures Least(Refill(b, rate, now), forwards, session, rate, from)
  {
    var b' := Refill(b, rate, now);
    forall t1: nat | from <= t1 <= now ensures b'.tokens <= Allowance(forwards, session, rate, t1, now) {
      RefillCovered(b, forwards, session, rate, from, now, t1);
    }
    var t1 := RefillAttained(b, forwards, session, rate, from, now);
  }

  /** Charging a packet lowers what every stretch allows by as much as the bucket. */
  lemma {:induction false} ChargeLeast(b: Bucket, forwards: seq<Forward>, rate: nat, from: nat, f: Forward)
    requires Least(b, forwards, f.session, rate, from) && f.at == b.lastRefill && 1000 * f.len <= b.tokens
    ensures Least(b.(tokens := b.tokens - 1000 * f.len), forwards + [f], f.session, rate, from)
  {
    var b', all := b.(tokens := b.tokens - 1000 * f.len), forwards + [f];
    forall t1: nat | from <= t1 <= b.lastRefill
      ensures Allowance(all, f.session, rate, t1, b.lastRefill)
              == Allowance(forwards, f.session, rate, t1, b.lastRefill) - 1000 * f.len
    {
      SinceSnoc(forwards, f, f.session, t1);
    }
    var t1: nat :| from <= t1 <= b.lastRefill && Attained(b, forwards, f.session, rate, t1);
    assert Attained(b', all, f.session, rate, t1);
  }

  lemma {:induction false} OtherLeast(b: Bucket, forwards: seq<Forward>, session: nat, rate: nat, from: nat, f: Forward)
    requires Least(b, forwards, session, rate, from) && f.session != session
    ensures Least(b, forwards + [f], session, rate, from)
  {
    forall t1: nat | from <= t1 <= b.lastRefill
      ensures Allowance(forwards + [f], session, rate, t1, b.lastRefill) == Allowance(forwards, session, rate, t1, b.lastRefill)
    {
      SinceSnoc(forwards, f, session, t1);
    }
    var t1: nat :| from <= t1 <= b.lastRefill && Attained(b, forwards, session, rate, t1);
    assert Attained(b, forwards + [f], session, rate, t1);
  }

  lemma {:induction false} FullLeast(forwards: seq<Forward>, session: nat, rate: nat, now: nat)
    requires forall k :: 0 <= k < |forwards| ==> forwards[k].session != session
    ensures Least(Bucket(1000 * rate, now), forwards, session, rate, now)
  {
    SinceLater(forwards, session, now);
    assert Attained(Bucket(1000 * rate, now), forwards, session, rate, now);
  }

  // ---------- Over runs ----------

  ghost predicate Filled(r: Relay) {
    forall id :: id in r.table.contexts ==>
      && Known(r, id)
      && Least(r.table.contexts[id].bucket, r.forwards, r.sessions[id], r.table.rate, r.begun[r.sessions[id]])
  }

  lemma {:induction false} AuthorizeFills(r: Relay, step: Step)
    requires Inv(r) && Filled(r) && Enabled(r, step) && step.AuthorizeStep?
    ensures Filled(Apply(r, step))
  {
    FullLeast(r.forwards, r.sessionCount, r.table.rate, step.now);
  }

  lemma {:induction false} OtherFills(r: Relay, step: Step)
    requires Inv(r) && Filled(r) && (step.BindStep? || step.CloseStep? || step.SweepStep?)
    ensures Filled(Apply(r, step))
  {
    SameBuckets(r, step);
    var r' := Apply(r, step);
    assert r'.begun == r.begun && r'.table.rate == r.table.rate;
    assert forall n :: n in r.active ==> n in r'.active;
  }

  /** What a lookup does to the bucket of the context it finds. */
  lemma ForwardBucket(ctx: Context, rate: nat, now: nat, source: Addr, len: nat)
    ensures var (dst, ctx') := ForwardContext(ctx, rate, now, source, len);
            var full := Refill(ctx.bucket, rate, now);
            if dst.Some? then 1000 * len <= full.tokens && ctx'.bucket == full.(tokens := full.tokens - 1000 * len)
            else ctx'.bucket == ctx.bucket || ctx'.bucket == full
  {
  }

  lemma {:induction false} HitFills(r: Relay, step: Step, id: IntentId)
    requires Inv(r) && Filled(r) && Enabled(r, step) && step.LookupStep? && Found(r, step) == Some(id)
    ensures var r' := Apply(r, step);
            Least(r'.table.contexts[id].bucket, r'.forwards, r.sessions[id], r.table.rate, r.begun[r.sessions[id]])
  {
    var ctx, n, rate := r.table.contexts[id], r.sessions[id], r.table.rate;
    FoundEffect(r, step, id);
    assert ContextOk(ctx, rate, r.clock, r.table.sessionExpiry);
    ForwardBucket(ctx, rate, step.now, step.source, step.len);
    var full := Refill(ctx.bucket, rate, step.now);
    RefillLeast(ctx.bucket, r.forwards, n, rate, r.begun[n], step.now);
    if Passed(r, step, id).Some? { ChargeLeast(full, r.forwards, rate, r.begun[n], Passed(r, step, id).value); }
  }

  lemma {:induction false} LookupFills(r: Relay, step: Step)
    requires Inv(r) && Filled(r) && Enabled(r, step) && step.LookupStep?
    ensures Filled(Apply(r, step))
  {
    var r' := Apply(r, step);
    match Found(r, step)
    case None => MissEffect(r, step);
    case Some(id) =>
      FoundEffect(r, step, id);
      HitFills(r, step, id);
      forall k | k in r'.table.contexts
        ensures Known(r', k) && Least(r'.table.contexts[k].bucket, r'.forwards, r.sessions[k], r.table.rate, r.begun[r.sessions[k]])
      {
        if k != id && Passed(r, step, id).Some? {
          OtherLeast(r.table.contexts[k].bucket, r.forwards, r.sessions[k], r.table.rate, r.begun[r.sessions[k]],
                     Passed(r, step, id).value);
        }
      }
  }

  lemma {:induction false} RunFills(states: seq<Relay>, steps: seq<Step>, n: nat)
    requires Run(states, steps) && n <= |steps|
    ensures Filled(states[n])
  {
    if n > 0 {
      var r, step := states[n - 1], steps[n - 1];
      RunFills(states, steps, n - 1);
      RunKeeps(states, steps, n - 1);
      match step
      case AuthorizeStep(_, _, _, _, _) => AuthorizeFills(r, step);
      case LookupStep(_, _, _, _) => LookupFills(r, step);
      case _ => OtherFills(r, step);
    }
  }

  // ---------- Which packets are passed on ----------

  /** The packet keeps every stretch since the session was authorized within the rate. */
  ghost predicate RateAllows(r: Relay, session: nat, now: nat, len: nat)
    requires session in r.begun
  {
    forall t1: nat :: r.begun[session] <= t1 <= now ==> 1000 * len <= Allowance(r.forwards, session, r.table.rate, t1, now)
  }

  /** Everything else that is asked of a packet, by the record of its session. */
  predicate Admissible(r: Relay, session: nat, ctx: Context, now: nat)
    requires session in r.begun && session in r.active
  {
    && ctx.state.RelayActive?
    && now < r.begun[session] + r.table.sessionExpiry
    && SaturatingSub(now, r.active[session]) <= IDLE_TIMEOUT_MS
    && TotalFor(r.forwards, session) < SESSION_BYTE_CAP
  }

  lemma {:induction false} RateIsBucket(b: Bucket, r: Relay, session: nat, now: nat, len: nat)
    requires session in r.begun && b.lastRefill <= now
    requires Least(b, r.forwards, session, r.table.rate, r.begun[session])
    ensures RateAllows(r, session, now, len) <==> 1000 * len <= Refill(b, r.table.rate, now).tokens
  {
    forall t1: nat | r.begun[session] <= t1 <= now
      ensures Refill(b, r.table.rate, now).tokens <= Allowance(r.forwards, session, r.table.rate, t1, now)
    {
      RefillCovered(b, r.forwards, session, r.table.rate, r.begun[session], now, t1);
    }
    var t1 := RefillAttained(b, r.forwards, session, r.table.rate, r.begun[session], now);
  }

  /** The two addresses are the two that are bound. */
  predicate Between(ctx: Context, source: Addr, destination: Addr) {
    && ctx.initiator.addr.Some? && ctx.target.addr.Some?
    && multiset{source, destination} == multiset{ctx.initiator.addr.value, ctx.target.addr.value}
  }

  lemma OtherEndExactly(ctx: Context, source: Addr, destination: Addr)
    ensures OtherEnd(ctx, source) == Some(destination) <==> Between(ctx, source, destination)
  {
    if ctx.initiator.addr.Some? && ctx.target.addr.Some? {
      PairExactly(source, destination, ctx.initiator.addr.value, ctx.target.addr.value);
    }
  }

  lemma PairExactly(a: Addr, b: Addr, i: Addr, t: Addr)
    ensures multiset{a, b} == multiset{i, t} <==> (a == i && b == t) || (a == t && b == i)
  {
    if multiset{a, b} == multiset{i, t} {
      assert a in multiset{i, t} && b in multiset{i, t} && i in multiset{a, b} && t in multiset{a, b};
      if a == b { assert multiset{a, b}[a] == 2; }
    }
  }

  /** Main result: over every run and for every packet, it is passed on to a destination exactly when its source is not
      blocked, its token leads to an active session that has not expired, idled or reached its cap by the record, source
      and destination are the two addresses bound, and the rate allows it by the record. */
  lemma {:induction false} PassedExactly(states: seq<Relay>, steps: seq<Step>, k: nat, now: nat, token: Token, source: Addr,
                                         len: nat, destination: Addr)
    requires Run(states, steps) && k <= |steps| && states[k].clock <= now
    ensures var r := states[k];
            GetDestination(r.table, now, token, source, len).0 == Some(destination) <==>
              && !Blocklisted(r.table.failed, source.ip, now) && token in r.table.tokenIndex
              && var id := r.table.tokenIndex[token];
                 && id in r.table.contexts && Known(r, id)
                 && Between(r.table.contexts[id], source, destination)
                 && Admissible(r, r.sessions[id], r.table.contexts[id], now)
                 && RateAllows(r, r.sessions[id], now, len)
  {
    RunKeeps(states, steps, k);
    RunFills(states, steps, k);
    var r := states[k];
    if !Blocklisted(r.table.failed, source.ip, now) && token in r.table.tokenIndex
       && r.table.tokenIndex[token] in r.table.contexts
    {
      var id := r.table.tokenIndex[token];
      assert ContextOk(r.table.contexts[id], r.table.rate, r.clock, r.table.sessionExpiry);
      RateIsBucket(r.table.contexts[id].bucket, r, r.sessions[id], now, len);
      OtherEndExactly(r.table.contexts[id], source, destination);
    }
  }

  // ---------- The blocklist, from the lookups ----------

  /** The failed lookups of a run: unknown tokens, from addresses not blocked by the failures before. */
  function Misses(states: seq<Relay>, steps: seq<Step>, n: nat): seq<Blocklist.Failure>
    requires n <= |steps| == |states| - 1
  {
    if n == 0 then []
    else
      var before, step := Misses(states, steps, n - 1), steps[n - 1];
      if step.LookupStep? && step.token !in states[n - 1].table.tokenIndex && !Blocklist.Blocked(before, step.source.ip, step.now)
      then before + [Blocklist.Failure(step.source.ip, step.now)] else before
  }

  lemma {:induction false} MissesInOrder(states: seq<Relay>, steps: seq<Step>, n: nat)
    requires Run(states, steps) && n <= |steps|
    ensures var misses := Misses(states, steps, n);
            Blocklist.InOrder(misses) && forall k :: 0 <= k < |misses| ==> misses[k].at <= states[n].clock
  {
    if n > 0 { MissesInOrder(states, steps, n - 1); }
  }

  /** Main result: over every run an address is blocked exactly as its own failed lookups say. */
  lemma {:induction false} BlockedByLookups(states: seq<Relay>, steps: seq<Step>, n: nat)
    requires Run(states, steps) && n <= |steps|
    ensures states[n].table.failed == Blocklist.After(Misses(states, steps, n))
    ensures forall ip, now: nat :: states[n].clock <= now ==>
              (Blocklisted(states[n].table.failed, ip, now) <==> Blocklist.Blocked(Misses(states, steps, n), ip, now))
  {
    MissesInOrder(states, steps, n);
    if n > 0 {
      BlockedByLookups(states, steps, n - 1);
      MissStep(states, steps, n);
    }
    forall ip, now: nat | states[n].clock <= now
      ensures Blocklisted(states[n].table.failed, ip, now) <==> Blocklist.Blocked(Misses(states, steps, n), ip, now)
    {
      Blocklist.BlockedExactly(Misses(states, steps, n), ip, now);
    }
  }

  lemma {:induction false} MissStep(states: seq<Relay>, steps: seq<Step>, n: nat)
    requires Run(states, steps) && 0 < n <= |steps|
    requires var r, step, before := states[n - 1], steps[n - 1], Misses(states, steps, n - 1);
             && r.table.failed == Blocklist.After(before)
             && (step.LookupStep? ==>
                   (Blocklisted(r.table.failed, step.source.ip, step.now) <==> Blocklist.Blocked(before, step.source.ip, step.now)))
    ensures states[n].table.failed == Blocklist.After(Misses(states, steps, n))
  {
    var r, step, before := states[n - 1], steps[n - 1], Misses(states, steps, n - 1);
    FailedStep(r, step);
    if step.LookupStep? {
      var f := Blocklist.Failure(step.source.ip, step.now);
      assert (before + [f])[..|before|] == before;
    }
  }

  /** Only a lookup with an unknown token from an address that is not blocked is recorded. */
  lemma FailedStep(r: Relay, step: Step)
    ensures Apply(r, step).table.failed ==
              if step.LookupStep? && !Blocklisted(r.table.failed, step.source.ip, step.now) && step.token !in r.table.tokenIndex
              then RecordFailure(r.table.failed, step.source.ip, step.now) else r.table.failed
  {
  }

  // ---------- Sweeping ----------

  /** Main result: over every run a sweep leaves exactly the sessions whose ends could still bind an address, of those not
      yet active only the ones authorized at most 10 s ago. */
  lemma {:induction false} SweepLeavesUsable(states: seq<Relay>, steps: seq<Step>, k: nat, now: nat, id: IntentId, addr: Addr)
    requires Run(states, steps) && k <= |steps| && states[k].clock <= now && id in states[k].table.contexts
    ensures Known(states[k], id)
    ensures var r, ctx := states[k], states[k].table.contexts[id];
            id in Sweep(r.table, now).contexts <==>
              && Bind(r.table, now, id, ctx.initiator.device, addr).0.Bound?
              && ((ctx.initiator.addr.Some? && ctx.target.addr.Some?) || now - r.begun[r.sessions[id]] <= EXCHANGE_TIMEOUT_MS)
  {
    RunKeeps(states, steps, k);
    var r, ctx := states[k], states[k].table.contexts[id];
    assert ContextOk(ctx, r.table.rate, r.clock, r.table.sessionExpiry);
    Server.BindExactly(ctx, now, ctx.initiator.device, addr);
  }

  // ---------- Closing ----------

  /** Over every run, once an intent's session is closed no packet passes in it and no address is bound, until the intent
      is authorized again. */
  lemma {:induction false} ClosedForGood(states: seq<Relay>, steps: seq<Step>, i: nat, j: nat, id: IntentId, now: nat,
                                         token: Token, source: Addr, len: nat, device: DeviceId, addr: Addr)
    requires Run(states, steps) && i < j <= |steps| && steps[i].CloseStep? && steps[i].id == id
    requires Untouched(steps, i + 1, j, id)
    ensures var t := states[j].table;
            && (token in t.tokenIndex && t.tokenIndex[token] == id ==> GetDestination(t, now, token, source, len).0.None?)
            && !Bind(t, now, id, device, addr).0.Bound?
  {
    LifecycleAdvances(states, steps, i + 1, j, id);
    var after, t := states[i + 1].table, states[j].table;
    assert id in after.contexts ==> Rank(after.contexts[id].state) == 3;
    if id in t.contexts {
      assert Terminal(t.contexts[id].state);
      Server.BindExactly(t.contexts[id], now, device, addr);
    }
  }
}
