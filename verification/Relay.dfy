/** The relay's control plane: registration, connect intents, acceptance, candidate release and address
    binding, each behind the sender's signature. The cryptographic primitives are parameters.
 */
module Relay {
  import opened Words
  import opened Codec
  import opened Forwarding
  import opened Rendezvous

  const TIMESTAMP_WINDOW_MS: nat := 300_000
  const MAX_REGISTRATIONS: nat := 1024
  const STALE_REGISTRATION_MS: nat := 300_000
  const INTENT_ID_BYTES: nat := 16
  const DEVICE_ID_BYTES: nat := 32
  const KEY_BYTES: nat := 32
  const SIGNATURE_BYTES: nat := 64
  const STAMP_BYTES: nat := 8

  type Key = Bytes

  datatype Crypto = Crypto(
    validKey: Key -> bool, deviceOf: Key -> DeviceId, hash: Bytes -> Bytes, verify: (Key, Bytes, Bytes) -> bool)

  // ---------- What is signed ----------

  /** What a device puts its signature to: its registration, its wish to connect to a peer, its agreement to
      a peer's wish, or the establishment of its end. */
  datatype Statement =
    | RegisterStatement(device: DeviceId, key: Key, timestamp: nat)
    | RequestStatement(id: IntentId, device: DeviceId, peer: DeviceId, timestamp: nat)
    | AcceptStatement(id: IntentId, device: DeviceId, peer: DeviceId, timestamp: nat)
    | EstablishStatement(id: IntentId, device: DeviceId, timestamp: nat)

  /** The bytes that are hashed and signed. A request and an acceptance are laid out alike. */
  function Layout(s: Statement): Bytes {
    match s
    case RegisterStatement(device, key, ts) => device + key + BigEndian(ts, STAMP_BYTES)
    case RequestStatement(id, device, peer, ts) => id + device + peer + BigEndian(ts, STAMP_BYTES)
    case AcceptStatement(id, device, peer, ts) => id + device + peer + BigEndian(ts, STAMP_BYTES)
    case EstablishStatement(id, device, ts) => id + device + BigEndian(ts, STAMP_BYTES)
  }

  predicate Pairing(s: Statement) {
    s.RequestStatement? || s.AcceptStatement?
  }

  /** The request with the fields of an acceptance, and the other way round. */
  function Twin(s: Statement): Statement {
    match s
    case RequestStatement(id, device, peer, ts) => AcceptStatement(id, device, peer, ts)
    case AcceptStatement(id, device, peer, ts) => RequestStatement(id, device, peer, ts)
    case _ => s
  }

  /** One more than the largest timestamp. */
  function Stamps(): nat {
    Pow256(STAMP_BYTES)
  }

  predicate WellSized(s: Statement) {
    && |s.device| == DEVICE_ID_BYTES && s.timestamp < Stamps()
    && (s.RegisterStatement? ==> |s.key| == KEY_BYTES)
    && (!s.RegisterStatement? ==> |s.id| == INTENT_ID_BYTES)
    && (Pairing(s) ==> |s.peer| == DEVICE_ID_BYTES)
  }

  lemma {:induction false} StampInjective(a: nat, b: nat)
    requires a < Pow256(STAMP_BYTES) && b < Pow256(STAMP_BYTES) && BigEndian(a, STAMP_BYTES) == BigEndian(b, STAMP_BYTES)
    ensures a == b
  {
    BigEndianRoundTrip(a, STAMP_BYTES);
    BigEndianRoundTrip(b, STAMP_BYTES);
  }

  lemma SplitEqual(a: Bytes, b: Bytes, c: Bytes, d: Bytes)
    requires a + b == c + d && |a| == |c|
    ensures a == c && b == d
  {
    assert a == (a + b)[..|a|] && c == (c + d)[..|c|];
    assert b == (a + b)[|a|..] && d == (c + d)[|c|..];
  }

  lemma LayoutSize(s: Statement)
    requires WellSized(s)
    ensures |Layout(s)| == if s.RegisterStatement? then 72 else if Pairing(s) then 88 else 56
  {
  }

  /** Signed bytes name their statement up to the one ambiguity there is: two statements share a layout exactly
      when they are the same, or a request and an acceptance of one device with the same fields. */
  lemma LayoutShared(s: Statement, t: Statement)
    requires WellSized(s) && WellSized(t)
    ensures Layout(s) == Layout(t) <==> s == t || s == Twin(t)
  {
    if Layout(s) == Layout(t) { LayoutNames(s, t); }
  }

  lemma LayoutNames(s: Statement, t: Statement)
    requires WellSized(s) && WellSized(t) && Layout(s) == Layout(t)
    ensures s == t || s == Twin(t)
  {
    LayoutSize(s);
    LayoutSize(t);
    var stamp, stamp' := BigEndian(s.timestamp, STAMP_BYTES), BigEndian(t.timestamp, STAMP_BYTES);
    if s.RegisterStatement? {
      SplitEqual(s.device + s.key, stamp, t.device + t.key, stamp');
      SplitEqual(s.device, s.key, t.device, t.key);
    } else if s.EstablishStatement? {
      SplitEqual(s.id + s.device, stamp, t.id + t.device, stamp');
      SplitEqual(s.id, s.device, t.id, t.device);
    } else {
      SplitEqual(s.id + s.device + s.peer, stamp, t.id + t.device + t.peer, stamp');
      SplitEqual(s.id + s.device, s.peer, t.id + t.device, t.peer);
      SplitEqual(s.id, s.device, t.id, t.device);
    }
    StampInjective(s.timestamp, t.timestamp);
  }

  // ---------- Messages ----------

  datatype Message =
    | RegisterRequest(device: DeviceId, key: Key, timestamp: nat, signature: Bytes)
    | DiscoverRequest(target: DeviceId)
    | ConnectIntent(initiator: DeviceId, target: DeviceId, id: IntentId, candidates: Candidates, timestamp: nat, signature: Bytes)
    | AcceptConnect(acceptor: DeviceId, id: IntentId, candidates: Candidates, timestamp: nat, signature: Bytes)
    | GetCandidates(requester: DeviceId, id: IntentId)
    | EstablishRequest(id: IntentId, device: DeviceId, timestamp: nat, signature: Bytes)
    | PollPending(device: DeviceId)
    | OtherMessage

  datatype Reply =
    | RegisterAck(session: nat, observed: Option<Addr>)
    | DiscoverResponse(target: DeviceId, online: bool)
    | ConnectRejected(target: DeviceId)
    | ConnectInvite(from: DeviceId, id: IntentId)
    | CandidateExchange(id: IntentId, candidates: Candidates, token: Token)
    | EstablishAck(id: IntentId)
    | PendingIntents(intents: set<(IntentId, DeviceId)>)
    | Refused(error: RelayError)

  datatype RelayError =
    | TimestampOutOfBounds | InvalidKey | IdentityMismatch | SignatureLength | SignatureInvalid | RegistryFull
    | NotFound | StoredKeyInvalid | IntentIdLength | NotRegistered | NoPeerAddress | NotForServer
    | RegisterFailed(register: RegisterResult) | AcceptFailed(accept: AcceptResult) | GetFailed(get: GetResult)
    | BindFailed(bind: BindResult)

  datatype Client = Client(session: nat, lastSeen: nat, key: Key, observed: Option<Addr>)

  datatype Server = Server(clients: map<DeviceId, Client>, nextSession: nat, intents: Intents, table: Table)

  function NewServer(rate: nat, sessionExpiry: nat): Server {
    Server(map[], 1, map[], NewTable(rate, sessionExpiry))
  }

  predicate InWindow(now: nat, timestamp: nat) {
    (if now < timestamp then timestamp - now else now - timestamp) <= TIMESTAMP_WINDOW_MS
  }

  /** A 64-byte signature that checks out under the key. */
  predicate Signs(crypto: Crypto, key: Key, s: Statement, signature: Bytes) {
    crypto.verify(key, crypto.hash(Layout(s)), signature)
  }

  // ---------- Handlers ----------

  function EvictStale(clients: map<DeviceId, Client>, now: nat): map<DeviceId, Client> {
    if |clients| >= MAX_REGISTRATIONS then
      map d | d in clients && clients[d].lastSeen > SaturatingSub(now, STALE_REGISTRATION_MS) :: clients[d]
    else clients
  }

  function HandleRegister(crypto: Crypto, s: Server, now: nat, m: Message, peer: Option<Addr>): (Reply, Server)
    requires m.RegisterRequest?
  {
    if !InWindow(now, m.timestamp) then (Refused(TimestampOutOfBounds), s)
    else if !crypto.validKey(m.key) then (Refused(InvalidKey), s)
    else if crypto.deviceOf(m.key) != m.device then (Refused(IdentityMismatch), s)
    else if |m.signature| != SIGNATURE_BYTES then (Refused(SignatureLength), s)
    else if !Signs(crypto, m.key, RegisterStatement(m.device, m.key, m.timestamp), m.signature) then (Refused(SignatureInvalid), s)
    else
      var clients := EvictStale(s.clients, now);
      var counted := s.(nextSession := (s.nextSession + 1) % U64, clients := clients);
      if |clients| >= MAX_REGISTRATIONS then (Refused(RegistryFull), counted)
      else (RegisterAck(s.nextSession, peer),
            counted.(clients := clients[m.device := Client(s.nextSession, now, m.key, peer)]))
  }

  function KeyFor(crypto: Crypto, s: Server, device: DeviceId): (Option<Key>, RelayError) {
    if device !in s.clients then (None, NotFound)
    else if !crypto.validKey(s.clients[device].key) then (None, StoredKeyInvalid)
    else (Some(s.clients[device].key), NotFound)
  }

  function HandleConnect(crypto: Crypto, s: Server, now: nat, m: Message): (Reply, Server)
    requires m.ConnectIntent?
  {
    if !InWindow(now, m.timestamp) then (Refused(TimestampOutOfBounds), s)
    else
      var (key, error) := KeyFor(crypto, s, m.initiator);
      if key.None? then (Refused(error), s)
      else if m.target !in s.clients then (ConnectRejected(m.target), s)
      else if |m.id| != INTENT_ID_BYTES then (Refused(IntentIdLength), s)
      else if |m.signature| != SIGNATURE_BYTES then (Refused(SignatureLength), s)
      else if !Signs(crypto, key.value, RequestStatement(m.id, m.initiator, m.target, m.timestamp), m.signature) then
        (Refused(SignatureInvalid), s)
      else
        var (r, intents) := Register(s.intents, now, m.id, m.initiator, m.target, m.candidates);
        (if r.Registered? then ConnectInvite(m.initiator, m.id) else Refused(RegisterFailed(r)), s.(intents := intents))
  }

  function HandleAccept(crypto: Crypto, s: Server, now: nat, m: Message, random: Option<Token>): (Reply, Server)
    requires m.AcceptConnect?
  {
    if !InWindow(now, m.timestamp) then (Refused(TimestampOutOfBounds), s)
    else
      var (key, error) := KeyFor(crypto, s, m.acceptor);
      if key.None? then (Refused(error), s)
      else if |m.id| != INTENT_ID_BYTES then (Refused(IntentIdLength), s)
      else if m.id !in s.intents then (Refused(AcceptFailed(AcceptUnknown)), s)
      else if |m.signature| != SIGNATURE_BYTES then (Refused(SignatureLength), s)
      else if !Signs(crypto, key.value, AcceptStatement(m.id, m.acceptor, s.intents[m.id].initiator, m.timestamp), m.signature) then
        (Refused(SignatureInvalid), s)
      else
        var (r, intents) := Accept(s.intents, now, m.id, m.acceptor, m.candidates, random);
        if !r.AcceptOk? then (Refused(AcceptFailed(r)), s.(intents := intents))
        else (CandidateExchange(m.id, r.candidates, r.token),
              s.(intents := intents, table := Authorize(s.table, now, m.id, r.token, r.initiator, m.acceptor)))
  }

  function HandleGet(s: Server, m: Message): Reply
    requires m.GetCandidates?
  {
    if |m.id| != INTENT_ID_BYTES then Refused(IntentIdLength)
    else if m.requester !in s.clients then Refused(NotRegistered)
    else
      var r := GetTarget(s.intents, m.id, m.requester);
      if r.Candidates? then CandidateExchange(m.id, r.candidates, r.token) else Refused(GetFailed(r))
  }

  function HandleEstablish(crypto: Crypto, s: Server, now: nat, m: Message, peer: Option<Addr>): (Reply, Server)
    requires m.EstablishRequest?
  {
    if !InWindow(now, m.timestamp) then (Refused(TimestampOutOfBounds), s)
    else if |m.id| != INTENT_ID_BYTES then (Refused(IntentIdLength), s)
    else if |m.signature| != SIGNATURE_BYTES then (Refused(SignatureLength), s)
    else
      var (key, error) := KeyFor(crypto, s, m.device);
      if key.None? then (Refused(error), s)
      else if !Signs(crypto, key.value, EstablishStatement(m.id, m.device, m.timestamp), m.signature) then
        (Refused(SignatureInvalid), s)
      else if peer.None? then (Refused(NoPeerAddress), s)
      else
        var (r, table) := Bind(s.table, now, m.id, m.device, peer.value);
        (if r.Bound? then EstablishAck(m.id) else Refused(BindFailed(r)), s.(table := table))
  }

  /** Every recent pending intent for a registered device, with its initiator. */
  function HandlePoll(s: Server, now: nat, device: DeviceId): Reply {
    if device !in s.clients then Refused(NotRegistered)
    else PendingIntents(set id | id in s.intents && Listed(s.intents, now, id, device) :: (id, s.intents[id].initiator))
  }

  function Handle(crypto: Crypto, s: Server, now: nat, m: Message, peer: Option<Addr>, random: Option<Token>): (Reply, Server) {
    match m
    case RegisterRequest(_, _, _, _) => HandleRegister(crypto, s, now, m, peer)
    case DiscoverRequest(target) => (DiscoverResponse(target, target in s.clients), s)
    case ConnectIntent(_, _, _, _, _, _) => HandleConnect(crypto, s, now, m)
    case AcceptConnect(_, _, _, _, _) => HandleAccept(crypto, s, now, m, random)
    case GetCandidates(_, _) => (HandleGet(s, m), s)
    case EstablishRequest(_, _, _, _) => HandleEstablish(crypto, s, now, m, peer)
    case PollPending(device) => (HandlePoll(s, now, device), s)
    case OtherMessage => (Refused(NotForServer), s)
  }

  // ---------- Which address gets bound ----------

  /** The forwarding context of the session would take a binding by this device now. */
  predicate Bindable(table: Table, now: nat, id: IntentId, device: DeviceId) {
    && id in table.contexts
    && var ctx := table.contexts[id];
       && !Terminal(ctx.state)
       && SaturatingSub(now, ctx.lastActive) <= IDLE_TIMEOUT_MS
       && now < ctx.expiresAt
       && (ctx.initiator.device == device || ctx.target.device == device)
  }

  /** Everything an establish request is checked for; where it comes from is not part of it. */
  predicate Establishes(crypto: Crypto, s: Server, now: nat, m: Message)
    requires m.EstablishRequest?
  {
    && InWindow(now, m.timestamp) && |m.id| == INTENT_ID_BYTES && |m.signature| == SIGNATURE_BYTES
    && m.device in s.clients && crypto.validKey(s.clients[m.device].key)
    && Signs(crypto, s.clients[m.device].key, EstablishStatement(m.id, m.device, m.timestamp), m.signature)
    && Bindable(s.table, now, m.id, m.device)
  }

  /** The address a session has for a device. */
  function AddressOf(table: Table, id: IntentId, device: DeviceId): Option<Addr> {
    if id !in table.contexts then None
    else if table.contexts[id].initiator.device == device then table.contexts[id].initiator.addr
    else if table.contexts[id].target.device == device then table.contexts[id].target.addr
    else None
  }

  /** An establish request binds exactly when it passes checks in which the address plays no part, and it then
      binds whatever address it came from. */
  lemma EstablishExactly(crypto: Crypto, s: Server, now: nat, m: Message, peer: Option<Addr>)
    requires m.EstablishRequest?
    ensures var (reply, s') := HandleEstablish(crypto, s, now, m, peer);
            && (reply.EstablishAck? <==> peer.Some? && Establishes(crypto, s, now, m))
            && (reply.EstablishAck? ==> AddressOf(s'.table, m.id, m.device) == peer)
            && (!reply.EstablishAck? ==> AddressOf(s'.table, m.id, m.device) == AddressOf(s.table, m.id, m.device))
  {
    if m.id in s.table.contexts && peer.Some? {
      BindExactly(s.table.contexts[m.id], now, m.device, peer.value);
    }
  }

  lemma BindExactly(ctx: Context, now: nat, device: DeviceId, addr: Addr)
    ensures var (r, ctx') := BindContext(ctx, now, device, addr);
            && (r.Bound? <==>
                  && !Terminal(ctx.state) && SaturatingSub(now, ctx.lastActive) <= IDLE_TIMEOUT_MS && now < ctx.expiresAt
                  && (ctx.initiator.device == device || ctx.target.device == device))
            && ctx'.initiator.device == ctx.initiator.device && ctx'.target.device == ctx.target.device
            && ctx'.expiresAt == ctx.expiresAt
            && (r.Bound? ==> !Terminal(ctx'.state) && ctx'.lastActive == now)
            && (!r.Bound? ==> ctx'.initiator == ctx.initiator && ctx'.target == ctx.target)
  {
  }

  /** Hence an establish request that was acknowledged once is acknowledged again, from whatever address it then
      comes, and moves the binding there, exactly as long as its timestamp is in the window, its session
      has seen no more than 30 s go by and has not reached its expiry. */
  lemma RebindExactly(crypto: Crypto, s: Server, first: nat, m: Message, from: Addr, again: nat, other: Addr)
    requires m.EstablishRequest? && HandleEstablish(crypto, s, first, m, Some(from)).0.EstablishAck?
    ensures m.id in s.table.contexts
    ensures var s1 := HandleEstablish(crypto, s, first, m, Some(from)).1;
            var (reply, s2) := HandleEstablish(crypto, s1, again, m, Some(other));
            && (reply.EstablishAck? <==>
                  && InWindow(again, m.timestamp)
                  && SaturatingSub(again, first) <= IDLE_TIMEOUT_MS
                  && again < s.table.contexts[m.id].expiresAt)
            && AddressOf(s2.table, m.id, m.device) == if reply.EstablishAck? then Some(other) else Some(from)
  {
    EstablishExactly(crypto, s, first, m, Some(from));
    var s1 := HandleEstablish(crypto, s, first, m, Some(from)).1;
    BindExactly(s.table.contexts[m.id], first, m.device, from);
    EstablishExactly(crypto, s1, again, m, Some(other));
  }
}
