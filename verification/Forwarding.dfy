/** The relay's forwarding table: contexts bound to routing tokens, the token index, the per-session
    token bucket, the blocklist, and the sweep. Times are milliseconds. The bucket is kept in
    thousandths of a byte, so that refilling `rate` bytes per second is exact.
 */
module Forwarding {
  import opened Words

  const IDLE_TIMEOUT_MS: nat := 30_000
  const SESSION_BYTE_CAP: nat := 10 * 1024 * 1024 * 1024
  const EXCHANGE_TIMEOUT_MS: nat := 10_000
  const BLOCKLIST_THRESHOLD: nat := 20
  const BLOCKLIST_WINDOW_MS: nat := 60_000
  const MAX_BLOCKLIST_ENTRIES: nat := 4096

  type IntentId = Bytes
  type Token = Bytes
  type DeviceId = Bytes

  datatype Addr = Addr(ip: nat, port: nat)

  datatype State = Authorized | RelayRequested | RelayActive | RelayExpired | RelayClosed

  predicate Terminal(s: State) {
    s.RelayExpired? || s.RelayClosed?
  }

  datatype Endpoint = Endpoint(device: DeviceId, addr: Option<Addr>)

  datatype Bucket = Bucket(tokens: nat, lastRefill: nat)

  datatype Context = Context(
    token: Token, initiator: Endpoint, target: Endpoint, state: State,
    lastActive: nat, expiresAt: nat, bytesForwarded: nat, authorizedAt: nat, bucket: Bucket)

  /** Count of failed lookups and start of the window they are counted in. */
  datatype Failures = Failures(count: nat, windowStart: nat)

  datatype Table = Table(
    contexts: map<IntentId, Context>, tokenIndex: map<Token, IntentId>, failed: map<nat, Failures>,
    rate: nat, sessionExpiry: nat)

  function NewTable(rate: nat, sessionExpiry: nat): Table {
    Table(map[], map[], map[], rate, sessionExpiry)
  }

  // ---------- Authorizing and binding ----------

  function Authorize(t: Table, now: nat, id: IntentId, token: Token, initiator: DeviceId, target: DeviceId): Table {
    var ctx := Context(token, Endpoint(initiator, None), Endpoint(target, None), Authorized,
                       now, now + t.sessionExpiry, 0, now, Bucket(1000 * t.rate, now));
    t.(contexts := t.contexts[id := ctx], tokenIndex := t.tokenIndex[token := id])
  }

  datatype BindResult = Bound | NoSession | Dead | IdleExpired | AbsoluteExpired | NotAMember

  /** The state that goes with the addresses bound so far. */
  function BoundState(ctx: Context): State {
    if ctx.initiator.addr.Some? && ctx.target.addr.Some? then RelayActive else RelayRequested
  }

  function BindContext(ctx: Context, now: nat, device: DeviceId, addr: Addr): (BindResult, Context) {
    if Terminal(ctx.state) then (Dead, ctx)
    else if SaturatingSub(now, ctx.lastActive) > IDLE_TIMEOUT_MS then (IdleExpired, ctx.(state := RelayExpired))
    else if now >= ctx.expiresAt then (AbsoluteExpired, ctx.(state := RelayExpired))
    else if ctx.initiator.device == device then
      var c := ctx.(initiator := ctx.initiator.(addr := Some(addr)), lastActive := now);
      (Bound, c.(state := BoundState(c)))
    else if ctx.target.device == device then
      var c := ctx.(target := ctx.target.(addr := Some(addr)), lastActive := now);
      (Bound, c.(state := BoundState(c)))
    else (NotAMember, ctx)
  }

  function Bind(t: Table, now: nat, id: IntentId, device: DeviceId, addr: Addr): (BindResult, Table) {
    if id !in t.contexts then (NoSession, t)
    else
      var (r, ctx) := BindContext(t.contexts[id], now, device, addr);
      (r, t.(contexts := t.contexts[id := ctx]))
  }

  // ---------- The blocklist ----------

  predicate Stale(f: Failures, now: nat) {
    SaturatingSub(now, f.windowStart) > BLOCKLIST_WINDOW_MS
  }

  function Evict(failed: map<nat, Failures>, now: nat): map<nat, Failures> {
    if |failed| >= MAX_BLOCKLIST_ENTRIES then map ip | ip in failed && !Stale(failed[ip], now) :: failed[ip] else failed
  }

  function CountFailure(failed: map<nat, Failures>, ip: nat, now: nat): map<nat, Failures> {
    var entry := if ip in failed then failed[ip] else Failures(0, now);
    failed[ip := if Stale(entry, now) then Failures(1, now) else entry.(count := entry.count + 1)]
  }

  function RecordFailure(failed: map<nat, Failures>, ip: nat, now: nat): map<nat, Failures> {
    CountFailure(Evict(failed, now), ip, now)
  }

  predicate Blocklisted(failed: map<nat, Failures>, ip: nat, now: nat) {
    ip in failed && failed[ip].count >= BLOCKLIST_THRESHOLD && !Stale(failed[ip], now)
  }

  // ---------- Forwarding a packet ----------

  function Refill(b: Bucket, rate: nat, now: nat): Bucket {
    var filled := b.tokens + SaturatingSub(now, b.lastRefill) * rate;
    Bucket(if filled < 1000 * rate then filled else 1000 * rate, now)
  }

  /** The other end, if the source is one of the two bound addresses. */
  function OtherEnd(ctx: Context, source: Addr): Option<Addr> {
    match (ctx.initiator.addr, ctx.target.addr)
    case (Some(i), Some(t)) => if source == i then Some(t) else if source == t then Some(i) else None
    case (_, _) => None
  }

  function ForwardContext(ctx: Context, rate: nat, now: nat, source: Addr, len: nat): (Option<Addr>, Context) {
    if !ctx.state.RelayActive? then (None, ctx)
    else if now >= ctx.expiresAt then (None, ctx.(state := RelayExpired))
    else if ctx.bytesForwarded >= SESSION_BYTE_CAP then (None, ctx.(state := RelayExpired))
    else if SaturatingSub(now, ctx.lastActive) > IDLE_TIMEOUT_MS then (None, ctx.(state := RelayExpired))
    else match OtherEnd(ctx, source)
         case None => (None, ctx)
         case Some(destination) =>
           var bucket := Refill(ctx.bucket, rate, now);
           if bucket.tokens < 1000 * len then (None, ctx.(bucket := bucket))
           else (Some(destination),
                 ctx.(bucket := bucket.(tokens := bucket.tokens - 1000 * len),
                      bytesForwarded := ctx.bytesForwarded + len, lastActive := now))
  }

  function GetDestination(t: Table, now: nat, token: Token, source: Addr, len: nat): (Option<Addr>, Table) {
    if Blocklisted(t.failed, source.ip, now) then (None, t)
    else if token !in t.tokenIndex then (None, t.(failed := RecordFailure(t.failed, source.ip, now)))
    else
      var id := t.tokenIndex[token];
      if id !in t.contexts then (None, t)
      else
        var (dst, ctx) := ForwardContext(t.contexts[id], t.rate, now, source, len);
        (dst, t.(contexts := t.contexts[id := ctx]))
  }

  function Close(t: Table, id: IntentId): Table {
    if id in t.contexts then t.(contexts := t.contexts[id := t.contexts[id].(state := RelayClosed)]) else t
  }

  // ---------- Sweeping ----------

  /** Terminal already, or about to be marked expired by this sweep. */
  predicate Sweepable(ctx: Context, now: nat) {
    || Terminal(ctx.state)
    || (ctx.state.RelayActive? && SaturatingSub(now, ctx.lastActive) > IDLE_TIMEOUT_MS)
    || ((ctx.state.Authorized? || ctx.state.RelayRequested?) && SaturatingSub(now, ctx.authorizedAt) > EXCHANGE_TIMEOUT_MS)
    || now >= ctx.expiresAt
  }

  ghost function Swept(t: Table, now: nat): set<IntentId> {
    set id | id in t.contexts && Sweepable(t.contexts[id], now)
  }

  ghost function SweptTokens(t: Table, now: nat): set<Token> {
    set id | id in Swept(t, now) :: t.contexts[id].token
  }

  ghost function Sweep(t: Table, now: nat): Table {
    t.(contexts := t.contexts - Swept(t, now), tokenIndex := t.tokenIndex - SweptTokens(t, now))
  }
}

/** The table object. */
module ForwardingObject {
  import opened Words
  import opened Forwarding

  class ForwardingTable {
    var contexts: map<IntentId, Context>
    var tokenIndex: map<Token, IntentId>
    var failedLookups: map<nat, Failures>
    const rate: nat
    const sessionExpiry: nat

    ghost function Value(): Table
      reads this
    {
      Table(contexts, tokenIndex, failedLookups, rate, sessionExpiry)
    }

    constructor (rate: nat, sessionExpiry: nat)
      ensures Value() == NewTable(rate, sessionExpiry)
    {
      contexts, tokenIndex, failedLookups := map[], map[], map[];
      this.rate, this.sessionExpiry := rate, sessionExpiry;
    }

    method AuthorizePair(now: nat, id: IntentId, token: Token, initiator: DeviceId, target: DeviceId)
      modifies this
      ensures Value() == Authorize(old(Value()), now, id, token, initiator, target)
    {
      var bucket := Bucket(1000 * rate, now);
      var ctx := Context(token, Endpoint(initiator, None), Endpoint(target, None), Authorized,
                         now, now + sessionExpiry, 0, now, bucket);
      contexts := contexts[id := ctx];
      tokenIndex := tokenIndex[token := id];
    }

    method UpdateBinding(now: nat, id: IntentId, device: DeviceId, addr: Addr) returns (r: BindResult)
      modifies this
      ensures (r, Value()) == Bind(old(Value()), now, id, device, addr)
    {
      if id !in contexts { return NoSession; }
      var ctx := contexts[id];
      if Terminal(ctx.state) {
        r := Dead;
      } else if SaturatingSub(now, ctx.lastActive) > IDLE_TIMEOUT_MS {
        ctx := ctx.(state := RelayExpired);
        r := IdleExpired;
      } else if now >= ctx.expiresAt {
        ctx := ctx.(state := RelayExpired);
        r := AbsoluteExpired;
      } else {
        r := Bound;
        if ctx.initiator.device == device {
          ctx := ctx.(initiator := Endpoint(device, Some(addr)));
        } else if ctx.target.device == device {
          ctx := ctx.(target := Endpoint(device, Some(addr)));
        } else {
          r := NotAMember;
        }
        if r == Bound {
          ctx := ctx.(lastActive := now);
          ctx := ctx.(state := if ctx.initiator.addr.Some? && ctx.target.addr.Some? then RelayActive else RelayRequested);
        }
      }
      contexts := contexts[id := ctx];
    }

    method RecordFailedLookup(ip: nat, now: nat)
      modifies this`failedLookups
      ensures failedLookups == RecordFailure(old(failedLookups), ip, now)
    {
      if |failedLookups| >= MAX_BLOCKLIST_ENTRIES {
        failedLookups := map k | k in failedLookups && !Stale(failedLookups[k], now) :: failedLookups[k];
      }
      var entry := if ip in failedLookups then failedLookups[ip] else Failures(0, now);
      if SaturatingSub(now, entry.windowStart) > BLOCKLIST_WINDOW_MS {
        entry := Failures(1, now);
      } else {
        entry := entry.(count := entry.count + 1);
      }
      failedLookups := failedLookups[ip := entry];
    }

    method LookUp(now: nat, token: Token, source: Addr, len: nat) returns (r: Option<Addr>)
      modifies this
      ensures (r, Value()) == GetDestination(old(Value()), now, token, source, len)
    {
      if Blocklisted(failedLookups, source.ip, now) { return None; }
      if token !in tokenIndex {
        RecordFailedLookup(source.ip, now);
        return None;
      }
      var id := tokenIndex[token];
      if id !in contexts { return None; }
      r := Charge(now, id, source, len);
    }

    /** The checks and charges on one context. */
    method Charge(now: nat, id: IntentId, source: Addr, len: nat) returns (r: Option<Addr>)
      requires id in contexts
      modifies this`contexts
      ensures id in contexts
      ensures (r, contexts[id]) == ForwardContext(old(contexts)[id], rate, now, source, len)
      ensures contexts == old(contexts)[id := contexts[id]]
    {
      var ctx := contexts[id];
      r := None;
      if ctx.state != RelayActive { return; }
      if now >= ctx.expiresAt || ctx.bytesForwarded >= SESSION_BYTE_CAP
         || SaturatingSub(now, ctx.lastActive) > IDLE_TIMEOUT_MS {
        contexts := contexts[id := ctx.(state := RelayExpired)];
        return;
      }
      var destination := OtherEnd(ctx, source);
      if destination.None? { return; }
      var bucket := Refill(ctx.bucket, rate, now);
      if bucket.tokens < 1000 * len {
        contexts := contexts[id := ctx.(bucket := bucket)];
        return;
      }
      bucket := bucket.(tokens := bucket.tokens - 1000 * len);
      contexts := contexts[id := ctx.(bucket := bucket, bytesForwarded := ctx.bytesForwarded + len, lastActive := now)];
      r := destination;
    }

    method CloseSession(id: IntentId)
      modifies this`contexts
      ensures Value() == Close(old(Value()), id)
    {
      if id in contexts {
        contexts := contexts[id := contexts[id].(state := RelayClosed)];
      }
    }

    /** Removes the terminal and timed-out contexts with their tokens and says how many there were. */
    method SweepContexts(now: nat) returns (count: nat)
      modifies this`contexts, this`tokenIndex
      ensures Value() == Sweep(old(Value()), now)
      ensures count == |Swept(old(Value()), now)|
    {
      var toRemove := CollectSweepable(now);
      assert toRemove == Swept(old(Value()), now);
      count := |toRemove|;
      ghost var was := contexts;
      var left := toRemove;
      while left != {}
        invariant left <= toRemove
        invariant contexts == was - (toRemove - left)
        invariant tokenIndex == old(tokenIndex) - (set id | id in toRemove - left :: was[id].token)
        decreases left
      {
        var id :| id in left;
        assert id in was;
        RemoveOne(was, toRemove, left, id, old(tokenIndex));
        if id in contexts {
          tokenIndex := tokenIndex - {contexts[id].token};
          contexts := contexts - {id};
        }
        left := left - {id};
      }
      assert toRemove - left == toRemove;
      assert (set id | id in toRemove :: was[id].token) == SweptTokens(old(Value()), now);
    }

    method CollectSweepable(now: nat) returns (toRemove: set<IntentId>)
      ensures toRemove == Swept(Value(), now)
    {
      toRemove := {};
      var left := contexts.Keys;
      while left != {}
        invariant left <= contexts.Keys
        invariant toRemove == set id | id in contexts.Keys - left && Sweepable(contexts[id], now)
        decreases left
      {
        var id :| id in left;
        if Sweepable(contexts[id], now) {
          toRemove := toRemove + {id};
        }
        left := left - {id};
      }
    }
  }

  lemma RemoveOne(was: map<IntentId, Context>, toRemove: set<IntentId>, left: set<IntentId>, id: IntentId, index: map<Token, IntentId>)
    requires id in left && left <= toRemove && toRemove <= was.Keys
    ensures was - (toRemove - left) - {id} == was - (toRemove - (left - {id}))
    ensures index - (set k | k in toRemove - left :: was[k].token) - {was[id].token}
            == index - (set k | k in toRemove - (left - {id}) :: was[k].token)
    ensures id in was - (toRemove - left)
  {
    assert toRemove - (left - {id}) == (toRemove - left) + {id};
  }
}
