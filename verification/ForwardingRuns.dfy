/** Whole runs of the forwarding table under a clock that never goes back. Intent ids and tokens may be authorized
    again and again; each authorization opens a session of its own, numbered in order. `sessions` gives the number
    of the latest session of an intent, `begun` and `active` when a session was authorized and when it was last
    authorized, bound or forwarded in, `forwards` every packet passed on.
 */
module ForwardingRuns {
  import opened Words
  import opened Forwarding

  datatype Step =
    | AuthorizeStep(now: nat, id: IntentId, token: Token, initiator: DeviceId, target: DeviceId)
    | BindStep(now: nat, id: IntentId, device: DeviceId, addr: Addr)
    | LookupStep(now: nat, token: Token, source: Addr, len: nat)
    | CloseStep(now: nat, id: IntentId)
    | SweepStep(now: nat)

  /** A packet passed on; `idleSince` is the session's previous activity. */
  datatype Forward = Forward(
    session: nat, source: Addr, destination: Addr, len: nat, at: nat, idleSince: nat, expiresAt: nat)

  datatype Relay = Relay(
    table: Table, clock: nat, forwards: seq<Forward>, sessions: map<IntentId, nat>, sessionCount: nat,
    begun: map<nat, nat>, active: map<nat, nat>)

  function NewRelay(rate: nat, sessionExpiry: nat): Relay {
    Relay(NewTable(rate, sessionExpiry), 0, [], map[], 0, map[], map[])
  }

  predicate Known(r: Relay, id: IntentId) {
    id in r.sessions && r.sessions[id] in r.begun && r.sessions[id] in r.active
  }

  predicate Enabled(r: Relay, step: Step) {
    step.now >= r.clock
  }

  /** The context a lookup finds, if it gets that far. */
  function Found(r: Relay, step: Step): Option<IntentId>
    requires step.LookupStep?
  {
    if !Blocklisted(r.table.failed, step.source.ip, step.now) && step.token in r.table.tokenIndex
       && r.table.tokenIndex[step.token] in r.table.contexts && Known(r, r.table.tokenIndex[step.token])
    then Some(r.table.tokenIndex[step.token]) else None
  }

  /** The packet passed on by a lookup in this session, if it is. */
  function Passed(r: Relay, step: Step, id: IntentId): Option<Forward>
    requires step.LookupStep? && Known(r, id)
  {
    var destination := GetDestination(r.table, step.now, step.token, step.source, step.len).0;
    var n := r.sessions[id];
    if destination.None? then None
    else Some(Forward(n, step.source, destination.value, step.len, step.now, r.active[n], r.begun[n] + r.table.sessionExpiry))
  }

  function Log(r: Relay, f: Option<Forward>): Relay {
    match f
    case None => r
    case Some(f) => r.(forwards := r.forwards + [f], active := r.active[f.session := f.at])
  }

  ghost function Apply(r: Relay, step: Step): Relay {
    match step
    case AuthorizeStep(now, id, token, initiator, target) =>
      r.(table := Authorize(r.table, now, id, token, initiator, target), clock := now,
         sessions := r.sessions[id := r.sessionCount], sessionCount := r.sessionCount + 1,
         begun := r.begun[r.sessionCount := now], active := r.active[r.sessionCount := now])
    case BindStep(now, id, device, addr) =>
      var (result, table) := Bind(r.table, now, id, device, addr);
      r.(table := table, clock := now,
         active := if result.Bound? && id in r.sessions then r.active[r.sessions[id] := now] else r.active)
    case LookupStep(now, token, source, len) =>
      var f := match Found(r, step) case None => None case Some(id) => Passed(r, step, id);
      Log(r, f).(table := GetDestination(r.table, now, token, source, len).1, clock := now)
    case CloseStep(now, id) => r.(table := Close(r.table, id), clock := now)
    case SweepStep(now) => r.(table := Sweep(r.table, now), clock := now)
  }

  ghost predicate Run(states: seq<Relay>, steps: seq<Step>) {
    && |states| == |steps| + 1
    && states[0] == NewRelay(states[0].table.rate, states[0].table.sessionExpiry)
    && forall k :: 0 <= k < |steps| ==> Enabled(states[k], steps[k]) && states[k + 1] == Apply(states[k], steps[k])
  }

  // ---------- Invariant ----------

  /** A live context is Authorized, RelayRequested or RelayActive as none, one or both addresses are bound. */
  predicate LifeOk(ctx: Context) {
    Terminal(ctx.state) ||
    ctx.state == (if ctx.initiator.addr.None? && ctx.target.addr.None? then Authorized else BoundState(ctx))
  }

  predicate ClockOk(ctx: Context, clock: nat, expiry: nat) {
    && ctx.authorizedAt <= ctx.lastActive <= clock
    && ctx.bucket.lastRefill <= clock
    && ctx.expiresAt == ctx.authorizedAt + expiry
  }

  predicate BucketOk(ctx: Context, rate: nat) {
    ctx.bucket.tokens <= 1000 * rate
  }

  ghost predicate ContextOk(ctx: Context, rate: nat, clock: nat, expiry: nat) {
    LifeOk(ctx) && ClockOk(ctx, clock, expiry) && BucketOk(ctx, rate)
  }

  /** Bytes forwarded in a session. */
  function TotalFor(forwards: seq<Forward>, session: nat): nat {
    if forwards == [] then 0
    else
      var last := forwards[|forwards| - 1];
      TotalFor(forwards[..|forwards| - 1], session) + if last.session == session then last.len else 0
  }

  ghost predicate Contexts(r: Relay) {
    forall id :: id in r.table.contexts ==>
      ContextOk(r.table.contexts[id], r.table.rate, r.clock, r.table.sessionExpiry)
  }

  /** Every context has a session, and no two the same. */
  ghost predicate Numbered(contexts: map<IntentId, Context>, sessions: map<IntentId, nat>, count: nat) {
    && (forall id :: id in contexts ==> id in sessions)
    && (forall id :: id in sessions ==> sessions[id] < count)
    && (forall id, other :: id in contexts && other in contexts && id != other ==> sessions[id] != sessions[other])
  }

  ghost predicate Counted(contexts: map<IntentId, Context>, sessions: map<IntentId, nat>, forwards: seq<Forward>) {
    forall id :: id in contexts ==> id in sessions && contexts[id].bytesForwarded == TotalFor(forwards, sessions[id])
  }

  /** A context's times are those of its session. */
  ghost predicate Timed(contexts: map<IntentId, Context>, sessions: map<IntentId, nat>, begun: map<nat, nat>, active: map<nat, nat>) {
    forall id :: id in contexts ==>
      && id in sessions && sessions[id] in begun && sessions[id] in active
      && contexts[id].authorizedAt == begun[sessions[id]] && contexts[id].lastActive == active[sessions[id]]
  }

  /** Every forward fell before the absolute expiry and within 30 s of the activity before it. */
  predicate ForwardOk(f: Forward) {
    f.idleSince <= f.at < f.expiresAt && f.at - f.idleSince <= IDLE_TIMEOUT_MS
  }

  ghost predicate ForwardsOk(forwards: seq<Forward>, count: nat) {
    forall k :: 0 <= k < |forwards| ==> ForwardOk(forwards[k]) && forwards[k].session < count
  }

  ghost predicate Inv(r: Relay) {
    && Contexts(r)
    && Numbered(r.table.contexts, r.sessions, r.sessionCount)
    && Counted(r.table.contexts, r.sessions, r.forwards)
    && ForwardsOk(r.forwards, r.sessionCount)
    && Timed(r.table.contexts, r.sessions, r.begun, r.active)
  }

  // ---------- Contexts, one operation at a time ----------

  lemma BindContextOk(ctx: Context, rate: nat, clock: nat, expiry: nat, now: nat, device: DeviceId, addr: Addr)
    requires ContextOk(ctx, rate, clock, expiry) && clock <= now
    ensures ContextOk(BindContext(ctx, now, device, addr).1, rate, now, expiry)
    ensures BindContext(ctx, now, device, addr).1.token == ctx.token
    ensures BindContext(ctx, now, device, addr).1.bytesForwarded == ctx.bytesForwarded
    ensures BindContext(ctx, now, device, addr).1.bucket == ctx.bucket
    ensures var (result, ctx') := BindContext(ctx, now, device, addr);
            && ctx'.authorizedAt == ctx.authorizedAt
            && ctx'.lastActive == if result.Bound? then now else ctx.lastActive
  {
  }

  lemma RefillBounds(b: Bucket, rate: nat, now: nat)
    requires b.lastRefill <= now
    ensures Refill(b, rate, now).tokens <= 1000 * rate
    ensures Refill(b, rate, now).tokens <= b.tokens + (now - b.lastRefill) * rate
  {
  }

  lemma ForwardContextOk(ctx: Context, rate: nat, clock: nat, expiry: nat, now: nat, source: Addr, len: nat)
    requires ContextOk(ctx, rate, clock, expiry) && clock <= now
    ensures ContextOk(ForwardContext(ctx, rate, now, source, len).1, rate, now, expiry)
    ensures ForwardContext(ctx, rate, now, source, len).1.token == ctx.token
  {
    RefillBounds(ctx.bucket, rate, now);
  }

  /** What a forward means for its context. */
  lemma ForwardMeans(ctx: Context, rate: nat, now: nat, source: Addr, len: nat)
    ensures var (dst, ctx') := ForwardContext(ctx, rate, now, source, len);
            && (dst.None? ==> ctx'.bytesForwarded == ctx.bytesForwarded)
            && (dst.Some? ==>
                  && ctx.state.RelayActive? && now < ctx.expiresAt && SaturatingSub(now, ctx.lastActive) <= IDLE_TIMEOUT_MS
                  && OtherEnd(ctx, source) == dst
                  && ctx.bytesForwarded < SESSION_BYTE_CAP && ctx'.bytesForwarded == ctx.bytesForwarded + len)
            && ctx'.authorizedAt == ctx.authorizedAt
            && ctx'.lastActive == if dst.Some? then now else ctx.lastActive
  {
  }

  // ---------- Steps ----------

  lemma LaterClock(r: Relay, now: nat)
    requires Contexts(r) && r.clock <= now
    ensures Contexts(r.(clock := now))
  {
    forall id | id in r.table.contexts
      ensures ContextOk(r.table.contexts[id], r.table.rate, now, r.table.sessionExpiry)
    {
      assert ContextOk(r.table.contexts[id], r.table.rate, r.clock, r.table.sessionExpiry);
    }
  }

  /** Replacing one context by another that is fine at the new time. */
  lemma ReplaceKeepsContexts(r: Relay, now: nat, id: IntentId, ctx: Context)
    requires Contexts(r) && r.clock <= now && id in r.table.contexts
    requires ContextOk(ctx, r.table.rate, now, r.table.sessionExpiry)
    ensures Contexts(r.(table := r.table.(contexts := r.table.contexts[id := ctx]), clock := now))
  {
    LaterClock(r, now);
  }

  lemma AuthorizeKeeps(r: Relay, step: Step)
    requires Inv(r) && Enabled(r, step) && step.AuthorizeStep?
    ensures Inv(Apply(r, step))
  {
    LaterClock(r, step.now);
    TotalUnopened(r.forwards, r.sessionCount, r.sessionCount);
    var r' := Apply(r, step);
    assert ContextOk(r'.table.contexts[step.id], r.table.rate, step.now, r.table.sessionExpiry);
  }

  lemma {:induction false} TotalUnopened(forwards: seq<Forward>, session: nat, count: nat)
    requires session >= count && ForwardsOk(forwards, count)
    ensures TotalFor(forwards, session) == 0
  {
    if forwards != [] { TotalUnopened(forwards[..|forwards| - 1], session, count); }
  }

  lemma BindKeeps(r: Relay, step: Step)
    requires Inv(r) && Enabled(r, step) && step.BindStep?
    ensures Inv(Apply(r, step))
  {
    if step.id in r.table.contexts {
      var ctx := r.table.contexts[step.id];
      var ctx' := BindContext(ctx, step.now, step.device, step.addr).1;
      BindContextOk(ctx, r.table.rate, r.clock, r.table.sessionExpiry, step.now, step.device, step.addr);
      ReplaceKeepsContexts(r, step.now, step.id, ctx');
      CountedSame(r.table.contexts, r.sessions, r.forwards, step.id, ctx');
      TimedAfter(r, step.id, ctx', Apply(r, step).active);
    } else {
      LaterClock(r, step.now);
    }
  }

  /** Activity in one session is activity in no other. */
  lemma TimedAfter(r: Relay, id: IntentId, ctx': Context, active': map<nat, nat>)
    requires Inv(r) && id in r.table.contexts && ctx'.authorizedAt == r.table.contexts[id].authorizedAt
    requires || (active' == r.active && ctx'.lastActive == r.table.contexts[id].lastActive)
             || active' == r.active[r.sessions[id] := ctx'.lastActive]
    ensures Timed(r.table.contexts[id := ctx'], r.sessions, r.begun, active')
  {
  }

  lemma CloseKeeps(r: Relay, step: Step)
    requires Inv(r) && Enabled(r, step) && step.CloseStep?
    ensures Inv(Apply(r, step))
  {
    if step.id in r.table.contexts {
      var ctx' := r.table.contexts[step.id].(state := RelayClosed);
      assert ContextOk(ctx', r.table.rate, step.now, r.table.sessionExpiry) by {
        assert ContextOk(r.table.contexts[step.id], r.table.rate, r.clock, r.table.sessionExpiry);
      }
      ReplaceKeepsContexts(r, step.now, step.id, ctx');
      CountedSame(r.table.contexts, r.sessions, r.forwards, step.id, ctx');
      TimedAfter(r, step.id, ctx', r.active);
    } else {
      LaterClock(r, step.now);
    }
  }

  lemma SweepKeeps(r: Relay, step: Step)
    requires Inv(r) && Enabled(r, step) && step.SweepStep?
    ensures Inv(Apply(r, step))
  {
    LaterClock(r, step.now);
  }

  lemma {:induction false} TotalSnoc(forwards: seq<Forward>, f: Forward, session: nat)
    ensures TotalFor(forwards + [f], session) == TotalFor(forwards, session) + if f.session == session then f.len else 0
  {
    assert (forwards + [f])[..|forwards|] == forwards;
  }

  lemma CountedAfterForward(contexts: map<IntentId, Context>, sessions: map<IntentId, nat>, count: nat,
                            forwards: seq<Forward>, id: IntentId, ctx': Context, f: Forward)
    requires Numbered(contexts, sessions, count) && Counted(contexts, sessions, forwards) && id in contexts
    requires f.session == sessions[id] && ctx'.bytesForwarded == contexts[id].bytesForwarded + f.len
    ensures Counted(contexts[id := ctx'], sessions, forwards + [f])
  {
    forall k | k in contexts ensures contexts[id := ctx'][k].bytesForwarded == TotalFor(forwards + [f], sessions[k]) {
      TotalSnoc(forwards, f, sessions[k]);
    }
  }

  lemma CountedSame(contexts: map<IntentId, Context>, sessions: map<IntentId, nat>, forwards: seq<Forward>,
                    id: IntentId, ctx': Context)
    requires Counted(contexts, sessions, forwards) && id in contexts && ctx'.bytesForwarded == contexts[id].bytesForwarded
    ensures Counted(contexts[id := ctx'], sessions, forwards)
  {
  }

  /** What a lookup that finds a context does. */
  lemma FoundEffect(r: Relay, step: Step, id: IntentId)
    requires step.LookupStep? && Found(r, step) == Some(id)
    ensures var r' := Apply(r, step);
            var (dst, ctx') := ForwardContext(r.table.contexts[id], r.table.rate, step.now, step.source, step.len);
            && r'.table == r.table.(contexts := r.table.contexts[id := ctx'])
            && r'.clock == step.now && r'.sessions == r.sessions && r'.sessionCount == r.sessionCount && r'.begun == r.begun
            && (dst.None? ==> Passed(r, step, id).None? && r'.forwards == r.forwards && r'.active == r.active)
            && (dst.Some? ==>
                  && Passed(r, step, id).Some?
                  && var f := Passed(r, step, id).value;
                     && f.session == r.sessions[id] && f.len == step.len && f.at == step.now
                     && f.idleSince == r.active[f.session] && f.expiresAt == r.begun[f.session] + r.table.sessionExpiry
                     && r'.forwards == r.forwards + [f] && r'.active == r.active[f.session := step.now])
  {
  }

  /** A lookup that finds none passes nothing on and changes no context. */
  lemma MissEffect(r: Relay, step: Step)
    requires Inv(r) && step.LookupStep? && Found(r, step).None?
    ensures GetDestination(r.table, step.now, step.token, step.source, step.len).0.None?
    ensures var r' := Apply(r, step);
            && r'.table == r.table.(failed := r'.table.failed)
            && r'.clock == step.now && r'.forwards == r.forwards && r'.begun == r.begun && r'.active == r.active
            && r'.sessions == r.sessions && r'.sessionCount == r.sessionCount
  {
  }

  lemma LookupHitKeeps(r: Relay, step: Step, id: IntentId)
    requires Inv(r) && Enabled(r, step) && step.LookupStep? && Found(r, step) == Some(id)
    ensures Contexts(Apply(r, step)) && ForwardsOk(Apply(r, step).forwards, r.sessionCount)
  {
    var ctx := r.table.contexts[id];
    var ctx' := ForwardContext(ctx, r.table.rate, step.now, step.source, step.len).1;
    FoundEffect(r, step, id);
    assert ContextOk(ctx, r.table.rate, r.clock, r.table.sessionExpiry);
    ForwardContextOk(ctx, r.table.rate, r.clock, r.table.sessionExpiry, step.now, step.source, step.len);
    ForwardMeans(ctx, r.table.rate, step.now, step.source, step.len);
    ReplaceKeepsContexts(r, step.now, id, ctx');
  }

  lemma LookupHitCounts(r: Relay, step: Step, id: IntentId)
    requires Inv(r) && step.LookupStep? && Found(r, step) == Some(id)
    ensures Counted(Apply(r, step).table.contexts, r.sessions, Apply(r, step).forwards)
    ensures Timed(Apply(r, step).table.contexts, r.sessions, r.begun, Apply(r, step).active)
  {
    var ctx := r.table.contexts[id];
    var (dst, ctx') := ForwardContext(ctx, r.table.rate, step.now, step.source, step.len);
    FoundEffect(r, step, id);
    ForwardMeans(ctx, r.table.rate, step.now, step.source, step.len);
    TimedAfter(r, id, ctx', Apply(r, step).active);
    if dst.Some? {
      CountedAfterForward(r.table.contexts, r.sessions, r.sessionCount, r.forwards, id, ctx', Passed(r, step, id).value);
    } else {
      CountedSame(r.table.contexts, r.sessions, r.forwards, id, ctx');
    }
  }

  lemma LookupKeeps(r: Relay, step: Step)
    requires Inv(r) && Enabled(r, step) && step.LookupStep?
    ensures Inv(Apply(r, step))
  {
    match Found(r, step)
    case None =>
      MissEffect(r, step);
      LaterClock(r, step.now);
    case Some(id) =>
      FoundEffect(r, step, id);
      LookupHitKeeps(r, step, id);
      LookupHitCounts(r, step, id);
  }

  lemma StepKeeps(r: Relay, step: Step)
    requires Inv(r) && Enabled(r, step)
    ensures Inv(Apply(r, step))
    ensures Apply(r, step).table.rate == r.table.rate && Apply(r, step).table.sessionExpiry == r.table.sessionExpiry
  {
    match step
    case AuthorizeStep(_, _, _, _, _) => AuthorizeKeeps(r, step);
    case BindStep(_, _, _, _) => BindKeeps(r, step);
    case LookupStep(_, _, _, _) => LookupKeeps(r, step);
    case CloseStep(_, _) => CloseKeeps(r, step);
    case SweepStep(_) => SweepKeeps(r, step);
  }

  lemma {:induction false} RunKeeps(states: seq<Relay>, steps: seq<Step>, n: nat)
    requires Run(states, steps) && n <= |steps|
    ensures Inv(states[n]) && states[n].table.rate == states[0].table.rate
  {
    if n > 0 {
      RunKeeps(states, steps, n - 1);
      StepKeeps(states[n - 1], steps[n - 1]);
    }
  }

  /** Over every run: a live context's state tells how many addresses are bound; the bucket stays within its
      capacity; the byte counter is what the session forwarded; every forward fell before the session's absolute
      expiry and within 30 s of the activity before it. */
  lemma EveryRunIsOrderly(states: seq<Relay>, steps: seq<Step>, n: nat)
    requires Run(states, steps) && n <= |steps|
    ensures var r := states[n];
            && (forall id :: id in r.table.contexts ==>
                  && LifeOk(r.table.contexts[id])
                  && r.table.contexts[id].bucket.tokens <= 1000 * r.table.rate
                  && id in r.sessions
                  && r.table.contexts[id].bytesForwarded == TotalFor(r.forwards, r.sessions[id]))
            && (forall k :: 0 <= k < |r.forwards| ==> ForwardOk(r.forwards[k]))
  {
    RunKeeps(states, steps, n);
    var r := states[n];
    forall id | id in r.table.contexts
      ensures LifeOk(r.table.contexts[id]) && r.table.contexts[id].bucket.tokens <= 1000 * r.table.rate
    {
      assert ContextOk(r.table.contexts[id], r.table.rate, r.clock, r.table.sessionExpiry);
    }
  }

  // ---------- The lifecycle ----------

  function Rank(s: State): nat {
    match s
    case Authorized => 0
    case RelayRequested => 1
    case RelayActive => 2
    case RelayExpired => 3
    case RelayClosed => 3
  }

  lemma RankContext(ctx: Context, rate: nat, now: nat, device: DeviceId, addr: Addr, source: Addr, len: nat)
    requires LifeOk(ctx)
    ensures Rank(ctx.state) <= Rank(BindContext(ctx, now, device, addr).1.state)
    ensures Rank(ctx.state) <= Rank(ForwardContext(ctx, rate, now, source, len).1.state)
  {
  }

  /** The step moves the intent on: its rank does not fall, and a context that is not there does not appear. */
  predicate MovesOn(r: Relay, r': Relay, id: IntentId) {
    id in r'.table.contexts ==>
      id in r.table.contexts && Rank(r.table.contexts[id].state) <= Rank(r'.table.contexts[id].state)
  }

  predicate Authorizes(step: Step, id: IntentId) {
    step.AuthorizeStep? && step.id == id
  }

  /** The step authorizes the intent anew, and it is not merely authorized already. */
  predicate Restarts(r: Relay, step: Step, id: IntentId) {
    && Authorizes(step, id)
    && (id in r.table.contexts ==> Rank(r.table.contexts[id].state) > 0)
  }

  lemma RankLookup(r: Relay, step: Step, id: IntentId)
    requires Inv(r) && step.LookupStep?
    ensures MovesOn(r, Apply(r, step), id)
  {
    match Found(r, step)
    case None => MissEffect(r, step);
    case Some(hit) =>
      FoundEffect(r, step, hit);
      var ctx := r.table.contexts[hit];
      assert ContextOk(ctx, r.table.rate, r.clock, r.table.sessionExpiry);
      RankContext(ctx, r.table.rate, step.now, [], step.source, step.source, step.len);
  }

  lemma RankBind(r: Relay, step: Step, id: IntentId)
    requires Inv(r) && step.BindStep?
    ensures MovesOn(r, Apply(r, step), id)
  {
    if step.id in r.table.contexts {
      var ctx := r.table.contexts[step.id];
      assert ContextOk(ctx, r.table.rate, r.clock, r.table.sessionExpiry);
      RankContext(ctx, r.table.rate, step.now, step.device, step.addr, step.addr, 0);
    }
  }

  lemma RankStep(r: Relay, step: Step, id: IntentId)
    requires Inv(r)
    ensures MovesOn(r, Apply(r, step), id) <==> !Restarts(r, step, id)
  {
    match step
    case BindStep(_, _, _, _) => RankBind(r, step, id);
    case LookupStep(_, _, _, _) => RankLookup(r, step, id);
    case _ =>
  }

  lemma RankAt(states: seq<Relay>, steps: seq<Step>, k: nat, id: IntentId)
    requires Run(states, steps) && k < |steps|
    ensures MovesOn(states[k], states[k + 1], id) <==> !Restarts(states[k], steps[k], id)
  {
    RunKeeps(states, steps, k);
    RankStep(states[k], steps[k], id);
  }

  /** Over every run and stretch of it: a session only moves on, from authorized through requested and active to a
      terminal state, and once removed stays removed, if and only if no step in between authorizes its intent
      again (other than while it is merely authorized, which changes no rank). */
  lemma LifecycleExactly(states: seq<Relay>, steps: seq<Step>, i: nat, j: nat, id: IntentId)
    requires Run(states, steps) && i <= j <= |steps|
    ensures (forall k :: i <= k < j ==> MovesOn(states[k], states[k + 1], id)) <==>
            (forall k :: i <= k < j ==> !Restarts(states[k], steps[k], id))
  {
    forall k | i <= k < j ensures MovesOn(states[k], states[k + 1], id) <==> !Restarts(states[k], steps[k], id) {
      RankAt(states, steps, k, id);
    }
    if forall k :: i <= k < j ==> !Restarts(states[k], steps[k], id) {
      forall k | i <= k < j ensures MovesOn(states[k], states[k + 1], id) { assert !Restarts(states[k], steps[k], id); }
    } else {
      var k :| i <= k < j && Restarts(states[k], steps[k], id);
      assert !MovesOn(states[k], states[k + 1], id);
    }
  }

  /** An intent id stands for the same session at both ends of a stretch if and only if no step in between
      authorizes it again. */
  lemma {:induction false} SameSessionExactly(states: seq<Relay>, steps: seq<Step>, i: nat, j: nat, id: IntentId)
    requires Run(states, steps) && i <= j <= |steps| && id in states[i].sessions
    ensures id in states[j].sessions && states[i].sessions[id] <= states[j].sessions[id]
    ensures states[i].sessions[id] == states[j].sessions[id] <==> Untouched(steps, i, j, id)
  {
    if i < j {
      SameSessionExactly(states, steps, i, j - 1, id);
      RunKeeps(states, steps, j - 1);
      SessionStep(states[j - 1], steps[j - 1], id);
      UntouchedMore(steps, i, j, id);
    }
  }

  /** No step of the stretch authorizes the intent. */
  ghost predicate Untouched(steps: seq<Step>, i: nat, j: nat, id: IntentId)
    requires i <= j <= |steps|
  {
    forall k :: i <= k < j ==> !Authorizes(steps[k], id)
  }

  lemma UntouchedMore(steps: seq<Step>, i: nat, j: nat, id: IntentId)
    requires i < j <= |steps|
    ensures Untouched(steps, i, j, id) <==> Untouched(steps, i, j - 1, id) && !Authorizes(steps[j - 1], id)
  {
  }

  lemma SessionStep(r: Relay, step: Step, id: IntentId)
    requires Inv(r) && id in r.sessions
    ensures var r' := Apply(r, step);
            && id in r'.sessions && r.sessions[id] <= r'.sessions[id]
            && (r.sessions[id] == r'.sessions[id] <==> !Authorizes(step, id))
  {
  }

  /** From one end of such a stretch to the other: terminal stays terminal and removed stays removed. */
  lemma {:induction false} LifecycleAdvances(states: seq<Relay>, steps: seq<Step>, i: nat, j: nat, id: IntentId)
    requires Run(states, steps) && i <= j <= |steps| && Untouched(steps, i, j, id)
    ensures MovesOn(states[i], states[j], id)
  {
    if i < j {
      LifecycleAdvances(states, steps, i, j - 1, id);
      RankAt(states, steps, j - 1, id);
      assert !Authorizes(steps[j - 1], id);
    }
  }

  // ---------- The index ----------

  /** Tokens and contexts point at each other. */
  ghost predicate Inverse(t: Table) {
    && (forall id :: id in t.contexts ==>
          t.contexts[id].token in t.tokenIndex && t.tokenIndex[t.contexts[id].token] == id)
    && (forall k :: k in t.tokenIndex ==>
          t.tokenIndex[k] in t.contexts && t.contexts[t.tokenIndex[k]].token == k)
  }

  /** Replacing a context by one with the same token keeps the index right. */
  lemma ReplaceKeepsInverse(t: Table, id: IntentId, ctx: Context)
    requires Inverse(t) && id in t.contexts && ctx.token == t.contexts[id].token
    ensures Inverse(t.(contexts := t.contexts[id := ctx]))
  {
  }

  /** Authorizing keeps the index right exactly when neither the intent nor the token is in use for
      something else: a reused intent leaves its old token behind, a reused token robs its old context. */
  lemma AuthorizeInverse(t: Table, now: nat, id: IntentId, token: Token, initiator: DeviceId, target: DeviceId)
    requires Inverse(t)
    ensures Inverse(Authorize(t, now, id, token, initiator, target)) <==>
              && (id in t.contexts ==> t.contexts[id].token == token)
              && (token in t.tokenIndex ==> t.tokenIndex[token] == id)
  {
    var t' := Authorize(t, now, id, token, initiator, target);
    assert t'.contexts[id].token == token && t'.tokenIndex[token] == id;
    if id in t.contexts && t.contexts[id].token != token {
      assert t'.tokenIndex[t.contexts[id].token] == id;
    }
    if token in t.tokenIndex && t.tokenIndex[token] != id {
      assert t'.contexts[t.tokenIndex[token]].token == token;
    }
  }

  lemma SweepInverse(t: Table, now: nat)
    requires Inverse(t)
    ensures Inverse(Sweep(t, now))
  {
    var t' := Sweep(t, now);
    forall id | id in t'.contexts
      ensures t'.contexts[id].token in t'.tokenIndex && t'.tokenIndex[t'.contexts[id].token] == id
    {
      assert t.tokenIndex[t.contexts[id].token] == id;
    }
    forall k | k in t'.tokenIndex ensures t'.tokenIndex[k] in t'.contexts && t'.contexts[t'.tokenIndex[k]].token == k {
      var id := t.tokenIndex[k];
      assert t.contexts[id].token == k;
    }
  }

  /** No intent id and no token is authorized twice. */
  ghost predicate NoReuse(steps: seq<Step>) {
    forall j, k :: 0 <= j < k < |steps| && steps[j].AuthorizeStep? && steps[k].AuthorizeStep? ==>
      steps[j].id != steps[k].id && steps[j].token != steps[k].token
  }

  ghost predicate IdUsed(steps: seq<Step>, n: nat, id: IntentId)
    requires n <= |steps|
  {
    exists k :: 0 <= k < n && steps[k].AuthorizeStep? && steps[k].id == id
  }

  ghost predicate TokenUsed(steps: seq<Step>, n: nat, token: Token)
    requires n <= |steps|
  {
    exists k :: 0 <= k < n && steps[k].AuthorizeStep? && steps[k].token == token
  }

  /** What the index holds was authorized in the first `n` steps. */
  ghost predicate Indexed(t: Table, steps: seq<Step>, n: nat)
    requires n <= |steps|
  {
    && Inverse(t)
    && (forall id :: id in t.contexts ==> IdUsed(steps, n, id))
    && (forall token :: token in t.tokenIndex ==> TokenUsed(steps, n, token))
  }

  /** A step other than an authorization keeps the index, and adds nothing to it. */
  lemma InverseStep(r: Relay, step: Step)
    requires Inv(r) && Inverse(r.table) && !step.AuthorizeStep?
    ensures var t' := Apply(r, step).table;
            && Inverse(t') && t'.contexts.Keys <= r.table.contexts.Keys && t'.tokenIndex.Keys <= r.table.tokenIndex.Keys
  {
    match step
    case BindStep(now, id, device, addr) =>
      if id in r.table.contexts {
        ReplaceKeepsInverse(r.table, id, BindContext(r.table.contexts[id], now, device, addr).1);
      }
    case CloseStep(_, id) =>
      if id in r.table.contexts {
        ReplaceKeepsInverse(r.table, id, r.table.contexts[id].(state := RelayClosed));
      }
    case SweepStep(now) => SweepInverse(r.table, now);
    case LookupStep(now, _, source, len) => InverseLookup(r, step);
  }

  lemma InverseLookup(r: Relay, step: Step)
    requires Inv(r) && Inverse(r.table) && step.LookupStep?
    ensures var t' := Apply(r, step).table;
            && Inverse(t') && t'.contexts.Keys <= r.table.contexts.Keys && t'.tokenIndex.Keys <= r.table.tokenIndex.Keys
  {
    match Found(r, step)
    case None => MissEffect(r, step);
    case Some(id) =>
      FoundEffect(r, step, id);
      var ctx' := ForwardContext(r.table.contexts[id], r.table.rate, step.now, step.source, step.len).1;
      ReplaceKeepsInverse(r.table, id, ctx');
  }

  lemma UsedLater(steps: seq<Step>, n: nat, id: IntentId, token: Token)
    requires n < |steps|
    ensures IdUsed(steps, n, id) ==> IdUsed(steps, n + 1, id)
    ensures TokenUsed(steps, n, token) ==> TokenUsed(steps, n + 1, token)
  {
  }

  /** With no intent id and no token reused, index and contexts are mutually inverse throughout. */
  lemma {:induction false} IndexStaysInverse(states: seq<Relay>, steps: seq<Step>, n: nat)
    requires Run(states, steps) && NoReuse(steps) && n <= |steps|
    ensures Inverse(states[n].table) && Indexed(states[n].table, steps, n)
  {
    if n > 0 {
      var r, step := states[n - 1], steps[n - 1];
      IndexStaysInverse(states, steps, n - 1);
      RunKeeps(states, steps, n - 1);
      if step.AuthorizeStep? {
        AuthorizeInverse(r.table, step.now, step.id, step.token, step.initiator, step.target);
      } else {
        InverseStep(r, step);
      }
      forall id, token ensures IdUsed(steps, n - 1, id) ==> IdUsed(steps, n, id)
                       ensures TokenUsed(steps, n - 1, token) ==> TokenUsed(steps, n, token)
      {
        UsedLater(steps, n - 1, id, token);
      }
      IndexedAfter(states[n].table, r.table, steps, n);
    }
  }

  lemma IndexedAfter(t': Table, t: Table, steps: seq<Step>, n: nat)
    requires 0 < n <= |steps| && Inverse(t')
    requires forall id :: id in t.contexts ==> IdUsed(steps, n, id)
    requires forall token :: token in t.tokenIndex ==> TokenUsed(steps, n, token)
    requires forall id :: id in t'.contexts ==> id in t.contexts || (steps[n - 1].AuthorizeStep? && id == steps[n - 1].id)
    requires forall token :: token in t'.tokenIndex ==>
               token in t.tokenIndex || (steps[n - 1].AuthorizeStep? && token == steps[n - 1].token)
    ensures Indexed(t', steps, n)
  {
  }

  lemma SweptCount(t: Table, now: nat)
    ensures |Swept(t, now)| == |t.contexts| - |Sweep(t, now).contexts|
  {
    var rest := Sweep(t, now).contexts.Keys;
    assert t.contexts.Keys == rest + Swept(t, now) && rest !! Swept(t, now);
  }

  lemma SweptToken(t: Table, now: nat, k: Token)
    requires Inverse(t) && k in t.tokenIndex
    ensures k in SweptTokens(t, now) <==> Sweepable(t.contexts[t.tokenIndex[k]], now)
  {
    if Sweepable(t.contexts[t.tokenIndex[k]], now) {
      assert t.tokenIndex[k] in Swept(t, now);
    }
  }

  /** After a sweep exactly the terminal, idle, exchange-timed-out and expired contexts are gone, the others are
      untouched, and the count is the number removed; with an index in order, exactly their tokens are gone too. */
  lemma SweepExactly(t: Table, now: nat)
    ensures var t' := Sweep(t, now);
            && (forall id :: id in t'.contexts <==> id in t.contexts && !Sweepable(t.contexts[id], now))
            && (forall id :: id in t'.contexts ==> t'.contexts[id] == t.contexts[id])
            && |Swept(t, now)| == |t.contexts| - |t'.contexts|
    ensures var t' := Sweep(t, now);
            Inverse(t) ==>
              forall k :: k in t'.tokenIndex <==> k in t.tokenIndex && !Sweepable(t.contexts[t.tokenIndex[k]], now)
  {
    SweptCount(t, now);
    var t' := Sweep(t, now);
    if Inverse(t) {
      forall k ensures k in t'.tokenIndex <==> k in t.tokenIndex && !Sweepable(t.contexts[t.tokenIndex[k]], now) {
        if k in t.tokenIndex { SweptToken(t, now, k); }
      }
    }
  }

  // ---------- The byte cap ----------

  /** What a lookup adds to the total of a session. */
  lemma {:induction false} FoundTotal(r: Relay, step: Step, id: IntentId, n: nat)
    requires step.LookupStep? && Found(r, step) == Some(id)
    ensures TotalFor(Apply(r, step).forwards, n) == TotalFor(r.forwards, n)
              + if r.sessions[id] == n
                   && ForwardContext(r.table.contexts[id], r.table.rate, step.now, step.source, step.len).0.Some?
                then step.len else 0
  {
    FoundEffect(r, step, id);
    if Passed(r, step, id).Some? { TotalSnoc(r.forwards, Passed(r, step, id).value, n); }
  }

  /** No session ever forwards its cap plus one packet or more, also counting after it is removed. */
  lemma {:induction false} ByteCapHolds(states: seq<Relay>, steps: seq<Step>, k: nat, maxPacket: nat, session: nat)
    requires Run(states, steps) && k <= |steps|
    requires forall j :: 0 <= j < |steps| && steps[j].LookupStep? ==> steps[j].len <= maxPacket
    ensures TotalFor(states[k].forwards, session) < SESSION_BYTE_CAP + maxPacket
  {
    if k > 0 {
      ByteCapHolds(states, steps, k - 1, maxPacket, session);
      RunKeeps(states, steps, k - 1);
      CapStep(states[k - 1], steps[k - 1], maxPacket, session);
    }
  }

  lemma {:induction false} CapStep(r: Relay, step: Step, maxPacket: nat, session: nat)
    requires Inv(r) && (step.LookupStep? ==> step.len <= maxPacket)
    requires TotalFor(r.forwards, session) < SESSION_BYTE_CAP + maxPacket
    ensures TotalFor(Apply(r, step).forwards, session) < SESSION_BYTE_CAP + maxPacket
  {
    if step.LookupStep? && Found(r, step).Some? {
      var id := Found(r, step).value;
      FoundTotal(r, step, id, session);
      ForwardMeans(r.table.contexts[id], r.table.rate, step.now, step.source, step.len);
    }
  }

  // ---------- The rate bound ----------

  /** What a stretch of a run that starts at time `t1` with `before` bytes already forwarded knows of a context. */
  ghost predicate Metered(ctx: Context, rate: nat, t1: nat, forwarded: int) {
    && (ctx.bucket.lastRefill < t1 ==> forwarded == 0)
    && (ctx.bucket.lastRefill >= t1 ==>
          1000 * forwarded + ctx.bucket.tokens <= 1000 * rate + rate * (ctx.bucket.lastRefill - t1))
  }

  ghost predicate WithinRate(rate: nat, t1: nat, t2: nat, forwarded: int)
    requires t1 <= t2
  {
    1000 * forwarded <= 1000 * rate + rate * (t2 - t1)
  }

  lemma ScaleMono(rate: nat, a: nat, b: nat)
    requires a <= b
    ensures rate * a <= rate * b
  {
  }

  /** A lookup at a time in the interval keeps the meter. */
  lemma MeterForward(ctx: Context, rate: nat, t1: nat, now: nat, source: Addr, len: nat, forwarded: int)
    requires Metered(ctx, rate, t1, forwarded) && t1 <= now && ctx.bucket.lastRefill <= now
    ensures var (dst, ctx') := ForwardContext(ctx, rate, now, source, len);
            var forwarded' := forwarded + if dst.Some? then len else 0;
            Metered(ctx', rate, t1, forwarded')
  {
    RefillBounds(ctx.bucket, rate, now);
    if ctx.bucket.lastRefill >= t1 {
      assert rate * (now - t1) == rate * (ctx.bucket.lastRefill - t1) + (now - ctx.bucket.lastRefill) * rate;
    } else {
      assert rate * (now - t1) >= 0;
    }
  }

  lemma MeteredIsWithin(ctx: Context, rate: nat, t1: nat, t2: nat, forwarded: int)
    requires Metered(ctx, rate, t1, forwarded) && t1 <= t2 && ctx.bucket.lastRefill <= t2
    ensures WithinRate(rate, t1, t2, forwarded)
  {
    if ctx.bucket.lastRefill >= t1 { ScaleMono(rate, ctx.bucket.lastRefill - t1, t2 - t1); }
    assert rate * (t2 - t1) >= 0;
  }

  /** The claim carried along the stretch. */
  ghost predicate Meter(r: Relay, session: nat, t1: nat, before: nat, rate: nat) {
    && TotalFor(r.forwards, session) >= before
    && (forall id :: id in r.table.contexts && id in r.sessions && r.sessions[id] == session ==>
          Metered(r.table.contexts[id], rate, t1, TotalFor(r.forwards, session) - before))
    && (session >= r.sessionCount ==> TotalFor(r.forwards, session) == before)
  }

  lemma MeterAuthorize(r: Relay, step: Step, session: nat, t1: nat, before: nat)
    requires step.AuthorizeStep? && Inv(r) && t1 <= step.now && Meter(r, session, t1, before, r.table.rate)
    ensures Meter(Apply(r, step), session, t1, before, r.table.rate)
  {
    assert r.table.rate * (step.now - t1) >= 0;
  }

  lemma SameBuckets(r: Relay, step: Step)
    requires step.BindStep? || step.CloseStep? || step.SweepStep?
    ensures var r' := Apply(r, step);
            && r'.forwards == r.forwards && r'.sessions == r.sessions && r'.sessionCount == r.sessionCount
            && forall id :: id in r'.table.contexts ==>
                 id in r.table.contexts && r'.table.contexts[id].bucket == r.table.contexts[id].bucket
  {
  }

  lemma {:induction false} MeterSame(r: Relay, r': Relay, session: nat, t1: nat, before: nat, rate: nat)
    requires Meter(r, session, t1, before, rate)
    requires r'.forwards == r.forwards && r'.sessions == r.sessions && r'.sessionCount == r.sessionCount
    requires forall id :: id in r'.table.contexts ==>
               id in r.table.contexts && r'.table.contexts[id].bucket == r.table.contexts[id].bucket
    ensures Meter(r', session, t1, before, rate)
  {
  }

  lemma MeterOther(r: Relay, step: Step, session: nat, t1: nat, before: nat)
    requires (step.BindStep? || step.CloseStep? || step.SweepStep?) && Meter(r, session, t1, before, r.table.rate)
    ensures Meter(Apply(r, step), session, t1, before, r.table.rate)
  {
    SameBuckets(r, step);
    var r' := Apply(r, step);
    MeterSame(r, r', session, t1, before, r.table.rate);
  }

  lemma {:induction false} MeterLookup(r: Relay, step: Step, session: nat, t1: nat, before: nat)
    requires Inv(r) && Enabled(r, step) && step.LookupStep? && t1 <= step.now && Meter(r, session, t1, before, r.table.rate)
    ensures Meter(Apply(r, step), session, t1, before, r.table.rate)
  {
    match Found(r, step)
    case None => MissEffect(r, step);
    case Some(id) =>
      FoundEffect(r, step, id);
      FoundTotal(r, step, id, session);
      var ctx := r.table.contexts[id];
      assert ContextOk(ctx, r.table.rate, r.clock, r.table.sessionExpiry);
      if r.sessions[id] == session {
        MeterForward(ctx, r.table.rate, t1, step.now, step.source, step.len, TotalFor(r.forwards, session) - before);
      }
      var ctx' := ForwardContext(ctx, r.table.rate, step.now, step.source, step.len).1;
      MeterReplace(r, Apply(r, step), id, ctx', session, t1, before, r.table.rate);
  }

  lemma {:induction false} MeterReplace(r: Relay, r': Relay, id: IntentId, ctx': Context,
                                        session: nat, t1: nat, before: nat, rate: nat)
    requires Meter(r, session, t1, before, rate) && Numbered(r.table.contexts, r.sessions, r.sessionCount)
    requires id in r.table.contexts && r'.table.contexts == r.table.contexts[id := ctx']
    requires r'.sessions == r.sessions && r'.sessionCount == r.sessionCount
    requires TotalFor(r'.forwards, session) >= before
    requires if r.sessions[id] == session
             then Metered(ctx', rate, t1, TotalFor(r'.forwards, session) - before)
             else TotalFor(r'.forwards, session) == TotalFor(r.forwards, session)
    ensures Meter(r', session, t1, before, rate)
  {
  }

  lemma {:induction false} MeterStep(r: Relay, step: Step, session: nat, t1: nat, before: nat)
    requires Inv(r) && Enabled(r, step) && t1 <= step.now && Meter(r, session, t1, before, r.table.rate)
    ensures Meter(Apply(r, step), session, t1, before, r.table.rate)
  {
    match step
    case AuthorizeStep(_, _, _, _, _) => MeterAuthorize(r, step, session, t1, before);
    case BindStep(_, _, _, _) => MeterOther(r, step, session, t1, before);
    case CloseStep(_, _) => MeterOther(r, step, session, t1, before);
    case SweepStep(_) => MeterOther(r, step, session, t1, before);
    case LookupStep(_, _, _, _) => MeterLookup(r, step, session, t1, before);
  }

  /** The claim of the rate bound at one state of the stretch. */
  ghost predicate Charged(r: Relay, session: nat, t1: nat, t2: nat, before: nat, rate: nat) {
    && t1 <= t2
    && Meter(r, session, t1, before, rate)
    && WithinRate(rate, t1, t2, TotalFor(r.forwards, session) - before)
  }

  lemma {:induction false} RateStart(r: Relay, session: nat, t1: nat, t2: nat)
    requires Inv(r) && r.clock <= t1 <= t2
    ensures Charged(r, session, t1, t2, TotalFor(r.forwards, session), r.table.rate)
  {
    assert r.table.rate * (t2 - t1) >= 0;
    forall id | id in r.table.contexts ensures Metered(r.table.contexts[id], r.table.rate, t1, 0) {
      assert ContextOk(r.table.contexts[id], r.table.rate, r.clock, r.table.sessionExpiry);
      assert r.table.rate * 0 == 0;
    }
  }

  /** Only a lookup in the session adds to its total, and it leaves a context that meters it. */
  lemma {:induction false} RateStep(r: Relay, step: Step, session: nat, t1: nat, t2: nat, before: nat)
    requires Inv(r) && Enabled(r, step) && t1 <= step.now <= t2
    requires Charged(r, session, t1, t2, before, r.table.rate)
    ensures Charged(Apply(r, step), session, t1, t2, before, r.table.rate)
  {
    var r' := Apply(r, step);
    MeterStep(r, step, session, t1, before);
    StepKeeps(r, step);
    if step.LookupStep? && Found(r, step).Some? {
      var id := Found(r, step).value;
      FoundEffect(r, step, id);
      FoundTotal(r, step, id, session);
      if r.sessions[id] == session {
        assert ContextOk(r'.table.contexts[id], r.table.rate, r'.clock, r.table.sessionExpiry);
        MeteredIsWithin(r'.table.contexts[id], r.table.rate, t1, t2, TotalFor(r'.forwards, session) - before);
      }
    }
  }

  lemma {:induction false} StretchCharged(states: seq<Relay>, steps: seq<Step>, i: nat, j: nat, session: nat,
                                          t1: nat, t2: nat)
    requires Run(states, steps) && i <= j <= |steps| && states[i].clock <= t1 <= t2
    requires forall k :: i <= k < j ==> t1 <= steps[k].now <= t2
    ensures Charged(states[j], session, t1, t2, TotalFor(states[i].forwards, session), states[0].table.rate)
  {
    if i == j {
      RunKeeps(states, steps, i);
      RateStart(states[i], session, t1, t2);
    } else {
      StretchCharged(states, steps, i, j - 1, session, t1, t2);
      RunKeeps(states, steps, j - 1);
      RateStep(states[j - 1], steps[j - 1], session, t1, t2, TotalFor(states[i].forwards, session));
    }
  }

  lemma {:induction false} ClockRises(states: seq<Relay>, steps: seq<Step>, i: nat, j: nat)
    requires Run(states, steps) && i <= j <= |steps|
    ensures states[i].clock <= states[j].clock
  {
    if i < j { ClockRises(states, steps, i, j - 1); }
  }

  /** Main result: in any stretch of any run whose steps all lie in [t1, t2], a session forwards at most
      `R + R * (t2 - t1) / 1000` bytes. */
  lemma {:induction false} RateLimitHolds(states: seq<Relay>, steps: seq<Step>, i: nat, j: nat, session: nat,
                                          t1: nat, t2: nat)
    requires Run(states, steps) && i <= j <= |steps| && t1 <= t2
    requires forall k :: i <= k < j ==> t1 <= steps[k].now <= t2
    ensures var rate := states[0].table.rate;
            1000 * (TotalFor(states[j].forwards, session) - TotalFor(states[i].forwards, session))
              <= 1000 * rate + rate * (t2 - t1)
  {
    var rate := states[0].table.rate;
    assert rate * (t2 - t1) >= 0;
    if i < j {
      var from := if t1 <= states[i].clock then states[i].clock else t1;
      forall k | i <= k < j ensures from <= steps[k].now <= t2 { ClockRises(states, steps, i, k); }
      assert from <= steps[i].now;
      StretchCharged(states, steps, i, j, session, from, t2);
      ScaleMono(rate, t2 - from, t2 - t1);
    }
  }
}

/** What happens when an intent id is used again, which the rendezvous registry allows. */
module IntentReuse {
  import opened Words
  import opened Forwarding
  import opened Rendezvous
  import opened Relay
  import ForwardingRuns

  /** Registered, accepted, registered again and accepted again under another token: the first token is left
      behind in the index, pointing at a context that no longer carries it. */
  lemma ReusedIntentLeavesAToken(id: IntentId, initiator: DeviceId, target: DeviceId, t1: Token, t2: Token, now: nat, table: Table)
    requires t1 != t2 && ForwardingRuns.Inverse(table) && id !in table.contexts && t1 !in table.tokenIndex && t2 !in table.tokenIndex
    ensures var (registered, i1) := Register(map[], now, id, initiator, target, []);
            var (accepted, i2) := Accept(i1, now, id, target, [], Some(t1));
            var (again, i3) := Register(i2, now, id, initiator, target, []);
            var accepted' := Accept(i3, now, id, target, [], Some(t2)).0;
            && registered.Registered? && accepted.AcceptOk? && again.Registered? && accepted'.AcceptOk?
            && accepted.token == t1 && accepted'.token == t2
    ensures var table1 := Authorize(table, now, id, t1, initiator, target);
            var table2 := Authorize(table1, now, id, t2, initiator, target);
            ForwardingRuns.Inverse(table1) && !ForwardingRuns.Inverse(table2)
  {
    assert Retained(map[], now) == map[];
    var i1 := Register(map[], now, id, initiator, target, []).1;
    var i2 := Accept(i1, now, id, target, [], Some(t1)).1;
    assert Retained(i2, now) == i2;
    var table1 := Authorize(table, now, id, t1, initiator, target);
    ForwardingRuns.AuthorizeInverse(table, now, id, t1, initiator, target);
    ForwardingRuns.AuthorizeInverse(table1, now, id, t2, initiator, target);
  }

  /** A session just authorized: live, no address bound, nothing counted, a full bucket. */
  predicate StartedOver(t: Table, id: IntentId, token: Token) {
    && id in t.contexts
    && var ctx := t.contexts[id];
       && ctx.state.Authorized? && ctx.initiator.addr.None? && ctx.target.addr.None?
       && ctx.bytesForwarded == 0 && ctx.bucket.tokens == 1000 * t.rate && ctx.token == token
  }

  /** Taking an acceptance is what starts a session over. */
  lemma AcceptExactly(crypto: Crypto, s: Server, now: nat, m: Message, token: Token)
    requires m.AcceptConnect? && m.id in s.intents
    ensures var (reply, s') := HandleAccept(crypto, s, now, m, Some(token));
            && (reply.CandidateExchange? <==>
                  && InWindow(now, m.timestamp) && m.acceptor in s.clients && crypto.validKey(s.clients[m.acceptor].key)
                  && |m.id| == INTENT_ID_BYTES && |m.signature| == SIGNATURE_BYTES
                  && Signs(crypto, s.clients[m.acceptor].key,
                           AcceptStatement(m.id, m.acceptor, s.intents[m.id].initiator, m.timestamp), m.signature)
                  && s.intents[m.id].state.Pending? && !TimedOut(s.intents[m.id].state.createdAt, now)
                  && s.intents[m.id].target == m.acceptor)
            && (reply.CandidateExchange? ==> StartedOver(s'.table, m.id, token) && s'.intents[m.id].state.Accepted?)
  {
  }

  /** A request and its acceptance, both taken once, are presented again after the session's context has become
      anything at all. Both are taken again, and start the session over, exactly as long as their timestamps are
      in the window, the registry has room and no more than 30 s lie between them. */
  lemma RepeatedExactly(crypto: Crypto, s: Server, request: Message, acceptance: Message, first: nat, second: nat,
                        token: Token, later: Table, third: nat, fourth: nat, token': Token)
    requires request.ConnectIntent? && acceptance.AcceptConnect? && acceptance.id == request.id
    requires HandleConnect(crypto, s, first, request).0.ConnectInvite?
    requires var s1 := HandleConnect(crypto, s, first, request).1;
             HandleAccept(crypto, s1, second, acceptance, Some(token)).0.CandidateExchange?
    ensures var s1 := HandleConnect(crypto, s, first, request).1;
            var s2 := HandleAccept(crypto, s1, second, acceptance, Some(token)).1.(table := later);
            var s3 := HandleConnect(crypto, s2, third, request).1;
            var (reply, s4) := HandleAccept(crypto, s3, fourth, acceptance, Some(token'));
            && (reply.CandidateExchange? <==>
                  && InWindow(third, request.timestamp) && |Retained(s2.intents, third)| < MAX_INTENTS
                  && InWindow(fourth, acceptance.timestamp) && SaturatingSub(fourth, third) <= INTENT_TIMEOUT_MS)
            && (reply.CandidateExchange? ==> StartedOver(s4.table, request.id, token'))
  {
    var s1 := HandleConnect(crypto, s, first, request).1;
    AcceptExactly(crypto, s1, second, acceptance, token);
    var s2 := HandleAccept(crypto, s1, second, acceptance, Some(token)).1.(table := later);
    assert s2.intents[request.id].state.Accepted?;
    var s3 := HandleConnect(crypto, s2, third, request).1;
    AcceptExactly(crypto, s3, fourth, acceptance, token');
  }
}
