/** Whole runs of the relay from empty, with every message that ever arrived and everything that devices
    ever signed on record: no packet passes without the signed consent of both ends.
 */
module Consent {
  import opened Words
  import opened Forwarding
  import opened Rendezvous
  import opened Relay

  /** A message, where it came from, when, and what the relay replied. */
  datatype Arrival = Arrival(message: Message, peer: Option<Addr>, at: nat, reply: Reply)

  /** A packet passed on; `heard` is how many messages had arrived by then. */
  datatype Packet = Packet(id: IntentId, source: Addr, destination: Addr, at: nat, heard: nat)

  /** The arrivals behind a forwarding context, as positions in the inbox: the message that opened its intent,
      the acceptance, and the latest establish request of either end. */
  datatype Grant = Grant(connect: nat, accept: nat, initiatorBind: nat, targetBind: nat)

  /** What is on record: the messages in order of arrival, and every statement signed with the time it first was. */
  datatype Record = Record(inbox: seq<Arrival>, signed: map<Statement, nat>)

  /** `opening` and `grants` remember which arrivals opened the pending intents and back the contexts. */
  datatype World = World(
    server: Server, clock: nat, record: Record, forwards: seq<Packet>,
    opening: map<IntentId, nat>, grants: map<IntentId, Grant>)

  datatype Step =
    | SignStep(now: nat, statement: Statement)
    | MessageStep(now: nat, message: Message, peer: Option<Addr>, random: Option<Token>)
    | PacketStep(now: nat, token: Token, source: Addr, len: nat)
    | CloseStep(now: nat, id: IntentId)
    | SweepTableStep(now: nat)
    | SweepIntentsStep(now: nat)

  function NewWorld(rate: nat, sessionExpiry: nat): World {
    World(NewServer(rate, sessionExpiry), 0, Record([], map[]), [], map[], map[])
  }

  // ---------- Steps ----------

  /** Over the digest of this statement the signature checks out only if the key's device has signed a statement
      with that digest. */
  ghost predicate Genuine(crypto: Crypto, signed: map<Statement, nat>, t: Statement, signature: Bytes) {
    forall key :: crypto.verify(key, crypto.hash(Layout(t)), signature) ==>
      exists s :: s in signed && s.device == crypto.deviceOf(key) && crypto.hash(Layout(s)) == crypto.hash(Layout(t))
  }

  /** The bytes the relay hashes for a statement collide with nothing else that was signed. */
  ghost predicate NoCollision(crypto: Crypto, signed: map<Statement, nat>, t: Statement) {
    forall s :: s in signed && crypto.hash(Layout(s)) == crypto.hash(Layout(t)) ==> Layout(s) == Layout(t)
  }

  predicate Carries(m: Message) {
    m.RegisterRequest? || m.ConnectIntent? || m.AcceptConnect? || m.EstablishRequest?
  }

  /** The statement whose signature the relay looks for in a message. */
  function Checked(s: Server, m: Message): Statement
    requires Carries(m)
  {
    match m
    case RegisterRequest(device, key, ts, _) => RegisterStatement(device, key, ts)
    case ConnectIntent(initiator, target, id, _, ts, _) => RequestStatement(id, initiator, target, ts)
    case AcceptConnect(acceptor, id, _, ts, _) =>
      AcceptStatement(id, acceptor, if id in s.intents then s.intents[id].initiator else [], ts)
    case EstablishRequest(id, device, ts, _) => EstablishStatement(id, device, ts)
  }

  /** Device ids, keys and timestamps have the width of their types. */
  predicate Typed(m: Message) {
    match m
    case RegisterRequest(device, key, ts, _) => WellSized(RegisterStatement(device, key, ts))
    case ConnectIntent(initiator, target, _, _, ts, _) =>
      |initiator| == DEVICE_ID_BYTES && |target| == DEVICE_ID_BYTES && ts < Stamps()
    case AcceptConnect(acceptor, _, _, ts, _) => |acceptor| == DEVICE_ID_BYTES && ts < Stamps()
    case EstablishRequest(_, device, ts, _) => |device| == DEVICE_ID_BYTES && ts < Stamps()
    case _ => true
  }

  ghost predicate Enabled(crypto: Crypto, w: World, step: Step) {
    && step.now >= w.clock
    && match step
       case SignStep(_, s) => WellSized(s)
       case MessageStep(_, m, _, _) =>
         && Typed(m)
         && (Carries(m) ==>
               && Genuine(crypto, w.record.signed, Checked(w.server, m), m.signature)
               && NoCollision(crypto, w.record.signed, Checked(w.server, m)))
       case _ => true
  }

  function Remember(grants: map<IntentId, Grant>, opening: map<IntentId, nat>, table: Table, k: nat, a: Arrival)
    : map<IntentId, Grant>
  {
    match a.message
    case AcceptConnect(_, id, _, _, _) =>
      if a.reply.CandidateExchange? && id in opening then grants[id := Grant(opening[id], k, k, k)] else grants
    case EstablishRequest(id, device, _, _) =>
      if a.reply.EstablishAck? && id in grants && id in table.contexts then
        grants[id := if table.contexts[id].initiator.device == device then grants[id].(initiatorBind := k)
                     else grants[id].(targetBind := k)]
      else grants
    case _ => grants
  }

  function Hear(rec: Record, a: Arrival): Record {
    rec.(inbox := rec.inbox + [a])
  }

  function Receive(crypto: Crypto, w: World, now: nat, m: Message, peer: Option<Addr>, random: Option<Token>): World {
    var (reply, server) := Handle(crypto, w.server, now, m, peer, random);
    var a, k := Arrival(m, peer, now, reply), |w.record.inbox|;
    w.(server := server, clock := now, record := Hear(w.record, a),
       opening := if m.ConnectIntent? && reply.ConnectInvite? then w.opening[m.id := k] else w.opening,
       grants := Remember(w.grants, w.opening, w.server.table, k, a))
  }

  function Pass(w: World, now: nat, token: Token, source: Addr, len: nat): World {
    var (destination, table) := GetDestination(w.server.table, now, token, source, len);
    w.(server := w.server.(table := table), clock := now,
       forwards := if destination.Some? && token in w.server.table.tokenIndex
                   then w.forwards + [Packet(w.server.table.tokenIndex[token], source, destination.value, now, |w.record.inbox|)]
                   else w.forwards)
  }

  function Sign(rec: Record, now: nat, s: Statement): Record {
    if s in rec.signed then rec else rec.(signed := rec.signed[s := now])
  }

  ghost function Apply(crypto: Crypto, w: World, step: Step): World {
    match step
    case SignStep(now, statement) => w.(record := Sign(w.record, now, statement), clock := now)
    case MessageStep(now, message, peer, random) => Receive(crypto, w, now, message, peer, random)
    case PacketStep(now, token, source, len) => Pass(w, now, token, source, len)
    case CloseStep(now, id) => w.(server := w.server.(table := Close(w.server.table, id)), clock := now)
    case SweepTableStep(now) => w.(server := w.server.(table := Sweep(w.server.table, now)), clock := now)
    case SweepIntentsStep(now) => w.(server := w.server.(intents := ExpireAll(w.server.intents, now)), clock := now)
  }

  ghost predicate Run(crypto: Crypto, states: seq<World>, steps: seq<Step>) {
    && |states| == |steps| + 1
    && states[0] == NewWorld(states[0].server.table.rate, states[0].server.table.sessionExpiry)
    && forall k :: 0 <= k < |steps| ==>
         Enabled(crypto, states[k], steps[k]) && states[k + 1] == Apply(crypto, states[k], steps[k])
  }

  // ---------- Consent ----------

  predicate HasSigned(rec: Record, s: Statement, before: nat) {
    s in rec.signed && rec.signed[s] <= before
  }

  /** By then the device had signed the statement, or the one that cannot be told from it. */
  predicate Vouched(rec: Record, s: Statement, before: nat) {
    HasSigned(rec, s, before) || HasSigned(rec, Twin(s), before)
  }

  /** The message that asked for `target` on behalf of `initiator` and registered the intent. */
  predicate Asked(rec: Record, k: nat, id: IntentId, initiator: DeviceId, target: DeviceId) {
    && k < |rec.inbox|
    && var a := rec.inbox[k];
       && a.message.ConnectIntent? && a.reply.ConnectInvite?
       && a.message.id == id && a.message.initiator == initiator && a.message.target == target
       && InWindow(a.at, a.message.timestamp)
       && WellSized(RequestStatement(id, initiator, target, a.message.timestamp))
       && Vouched(rec, RequestStatement(id, initiator, target, a.message.timestamp), a.at)
  }

  predicate Agreed(rec: Record, k: nat, id: IntentId, initiator: DeviceId, target: DeviceId) {
    && k < |rec.inbox|
    && var a := rec.inbox[k];
       && a.message.AcceptConnect? && a.reply.CandidateExchange?
       && a.message.id == id && a.message.acceptor == target
       && InWindow(a.at, a.message.timestamp)
       && WellSized(AcceptStatement(id, target, initiator, a.message.timestamp))
       && Vouched(rec, AcceptStatement(id, target, initiator, a.message.timestamp), a.at)
  }

  predicate EstablishedFrom(rec: Record, k: nat, id: IntentId, device: DeviceId, addr: Addr) {
    && k < |rec.inbox|
    && var a := rec.inbox[k];
       && Acknowledged(a, id, device) && a.peer == Some(addr)
       && InWindow(a.at, a.message.timestamp)
       && HasSigned(rec, EstablishStatement(id, device, a.message.timestamp), a.at)
  }

  /** An establish request of this device under this intent that the relay acknowledged. */
  predicate Acknowledged(a: Arrival, id: IntentId, device: DeviceId) {
    && a.message.EstablishRequest? && a.reply.EstablishAck?
    && a.message.id == id && a.message.device == device
  }

  /** None was acknowledged after position `k`, up to `end`. */
  ghost predicate Latest(inbox: seq<Arrival>, k: nat, end: nat, id: IntentId, device: DeviceId)
    requires end <= |inbox|
  {
    forall j :: k < j < end ==> !Acknowledged(inbox[j], id, device)
  }

  /** Both sides of the handshake, the acceptance at most 30 s after the intent was registered. */
  predicate Handshake(rec: Record, g: Grant, id: IntentId, initiator: DeviceId, target: DeviceId) {
    && Asked(rec, g.connect, id, initiator, target)
    && Agreed(rec, g.accept, id, initiator, target)
    && rec.inbox[g.connect].at <= rec.inbox[g.accept].at <= rec.inbox[g.connect].at + INTENT_TIMEOUT_MS
  }

  /** An end's address is where its latest acknowledged establish request came from, after the acceptance. */
  ghost predicate EndBacked(rec: Record, id: IntentId, device: DeviceId, addr: Addr, k: nat, accept: nat, end: nat, clock: nat) {
    && accept < k < end <= |rec.inbox|
    && EstablishedFrom(rec, k, id, device, addr)
    && Latest(rec.inbox, k, end, id, device)
    && rec.inbox[k].at <= clock
  }

  ghost predicate Backs(rec: Record, g: Grant, p: Packet, initiator: DeviceId, target: DeviceId, i: Addr, t: Addr) {
    && Handshake(rec, g, p.id, initiator, target)
    && initiator != target
    && EndBacked(rec, p.id, initiator, i, g.initiatorBind, g.accept, p.heard, p.at)
    && EndBacked(rec, p.id, target, t, g.targetBind, g.accept, p.heard, p.at)
    && ((p.source == i && p.destination == t) || (p.source == t && p.destination == i))
  }

  ghost predicate Consented(rec: Record, p: Packet) {
    exists g, initiator, target, i, t :: Backs(rec, g, p, initiator, target, i, t)
  }

  // ---------- Invariant ----------

  /** A registered key is the one its device id was derived from. */
  ghost predicate KeysBound(crypto: Crypto, clients: map<DeviceId, Client>) {
    forall d :: d in clients ==> crypto.deviceOf(clients[d].key) == d
  }

  ghost predicate SignedInOrder(signed: map<Statement, nat>, clock: nat) {
    forall s :: s in signed ==> WellSized(s) && signed[s] <= clock
  }

  predicate IntentBacked(rec: Record, id: IntentId, intent: Intent, k: nat, clock: nat) {
    intent.state.Pending? ==>
      Asked(rec, k, id, intent.initiator, intent.target) && rec.inbox[k].at == intent.state.createdAt <= clock
  }

  ghost predicate IntentsBacked(rec: Record, intents: Intents, opening: map<IntentId, nat>, clock: nat) {
    forall id :: id in intents ==> id in opening && IntentBacked(rec, id, intents[id], opening[id], clock)
  }

  ghost predicate ContextBacked(rec: Record, id: IntentId, ctx: Context, g: Grant, clock: nat) {
    && Handshake(rec, g, id, ctx.initiator.device, ctx.target.device)
    && (ctx.initiator.addr.Some? ==>
          EndBacked(rec, id, ctx.initiator.device, ctx.initiator.addr.value, g.initiatorBind, g.accept, |rec.inbox|, clock))
    && (ctx.target.addr.Some? ==>
          && ctx.initiator.device != ctx.target.device
          && EndBacked(rec, id, ctx.target.device, ctx.target.addr.value, g.targetBind, g.accept, |rec.inbox|, clock))
  }

  ghost predicate ContextsBacked(rec: Record, contexts: map<IntentId, Context>, grants: map<IntentId, Grant>, clock: nat) {
    forall id :: id in contexts ==> id in grants && ContextBacked(rec, id, contexts[id], grants[id], clock)
  }

  ghost predicate PacketsBacked(rec: Record, forwards: seq<Packet>) {
    forall k :: 0 <= k < |forwards| ==> Consented(rec, forwards[k])
  }

  ghost predicate Inv(crypto: Crypto, w: World) {
    && KeysBound(crypto, w.server.clients)
    && SignedInOrder(w.record.signed, w.clock)
    && IntentsBacked(w.record, w.server.intents, w.opening, w.clock)
    && ContextsBacked(w.record, w.server.table.contexts, w.grants, w.clock)
    && PacketsBacked(w.record, w.forwards)
  }

  // ---------- A longer record and a later clock keep what is backed ----------

  /** More was signed, or heard, since. */
  ghost predicate Longer(rec: Record, rec': Record) {
    && rec.inbox <= rec'.inbox
    && forall s :: s in rec.signed ==> s in rec'.signed && rec'.signed[s] == rec.signed[s]
  }

  lemma HandshakeStays(rec: Record, rec': Record, g: Grant, id: IntentId, initiator: DeviceId, target: DeviceId)
    requires Longer(rec, rec')
    ensures Asked(rec, g.connect, id, initiator, target) ==> Asked(rec', g.connect, id, initiator, target)
    ensures Handshake(rec, g, id, initiator, target) ==> Handshake(rec', g, id, initiator, target)
  {
  }

  lemma EndStays(rec: Record, rec': Record, id: IntentId, device: DeviceId, addr: Addr, k: nat, accept: nat, end: nat, clock: nat, clock': nat)
    requires Longer(rec, rec') && clock <= clock' && EndBacked(rec, id, device, addr, k, accept, end, clock)
    ensures EndBacked(rec', id, device, addr, k, accept, end, clock')
  {
    assert forall j :: 0 <= j < end ==> rec'.inbox[j] == rec.inbox[j];
  }

  lemma IntentsStay(rec: Record, rec': Record, intents: Intents, opening: map<IntentId, nat>, clock: nat, clock': nat)
    requires IntentsBacked(rec, intents, opening, clock) && Longer(rec, rec') && clock <= clock'
    ensures IntentsBacked(rec', intents, opening, clock')
  {
    forall id | id in intents ensures IntentBacked(rec', id, intents[id], opening[id], clock') {
      assert IntentBacked(rec, id, intents[id], opening[id], clock);
      HandshakeStays(rec, rec', Grant(opening[id], 0, 0, 0), id, intents[id].initiator, intents[id].target);
    }
  }

  /** The new arrivals acknowledge no establish request under this intent. */
  ghost predicate Quiet(rec: Record, rec': Record, id: IntentId) {
    forall j, device :: |rec.inbox| <= j < |rec'.inbox| ==> !Acknowledged(rec'.inbox[j], id, device)
  }

  lemma EndGrows(rec: Record, rec': Record, id: IntentId, device: DeviceId, addr: Addr, k: nat, accept: nat, clock: nat, clock': nat)
    requires Longer(rec, rec') && Quiet(rec, rec', id) && clock <= clock'
    requires EndBacked(rec, id, device, addr, k, accept, |rec.inbox|, clock)
    ensures EndBacked(rec', id, device, addr, k, accept, |rec'.inbox|, clock')
  {
    EndStays(rec, rec', id, device, addr, k, accept, |rec.inbox|, clock, clock');
    forall j | k < j < |rec'.inbox| ensures !Acknowledged(rec'.inbox[j], id, device) {
    }
  }

  lemma ContextGrows(rec: Record, rec': Record, id: IntentId, ctx: Context, g: Grant, clock: nat, clock': nat)
    requires ContextBacked(rec, id, ctx, g, clock) && Longer(rec, rec') && Quiet(rec, rec', id) && clock <= clock'
    ensures ContextBacked(rec', id, ctx, g, clock')
  {
    HandshakeStays(rec, rec', g, id, ctx.initiator.device, ctx.target.device);
    if ctx.initiator.addr.Some? {
      EndGrows(rec, rec', id, ctx.initiator.device, ctx.initiator.addr.value, g.initiatorBind, g.accept, clock, clock');
    }
    if ctx.target.addr.Some? {
      EndGrows(rec, rec', id, ctx.target.device, ctx.target.addr.value, g.targetBind, g.accept, clock, clock');
    }
  }

  lemma ContextsGrow(rec: Record, rec': Record, contexts: map<IntentId, Context>, grants: map<IntentId, Grant>, clock: nat, clock': nat)
    requires ContextsBacked(rec, contexts, grants, clock) && Longer(rec, rec') && clock <= clock'
    requires forall id :: id in contexts ==> Quiet(rec, rec', id)
    ensures ContextsBacked(rec', contexts, grants, clock')
  {
    forall id | id in contexts ensures ContextBacked(rec', id, contexts[id], grants[id], clock') {
      ContextGrows(rec, rec', id, contexts[id], grants[id], clock, clock');
    }
  }

  lemma PacketsStay(rec: Record, rec': Record, forwards: seq<Packet>)
    requires PacketsBacked(rec, forwards) && Longer(rec, rec')
    ensures PacketsBacked(rec', forwards)
  {
    forall k | 0 <= k < |forwards| ensures Consented(rec', forwards[k]) {
      var p := forwards[k];
      var g, initiator, target, i, t :| Backs(rec, g, p, initiator, target, i, t);
      HandshakeStays(rec, rec', g, p.id, initiator, target);
      EndStays(rec, rec', p.id, initiator, i, g.initiatorBind, g.accept, p.heard, p.at, p.at);
      EndStays(rec, rec', p.id, target, t, g.targetBind, g.accept, p.heard, p.at, p.at);
      assert Backs(rec', g, p, initiator, target, i, t);
    }
  }

  lemma WorldStays(crypto: Crypto, w: World, rec': Record, clock': nat)
    requires Inv(crypto, w) && Longer(w.record, rec') && rec'.inbox == w.record.inbox && w.clock <= clock'
    requires SignedInOrder(rec'.signed, clock')
    ensures Inv(crypto, w.(record := rec', clock := clock'))
  {
    IntentsStay(w.record, rec', w.server.intents, w.opening, w.clock, clock');
    ContextsGrow(w.record, rec', w.server.table.contexts, w.grants, w.clock, clock');
    PacketsStay(w.record, rec', w.forwards);
  }

  lemma ReplaceBacked(rec: Record, contexts: map<IntentId, Context>, grants: map<IntentId, Grant>, clock: nat,
                      id: IntentId, ctx: Context, g: Grant)
    requires ContextsBacked(rec, contexts, grants, clock) && ContextBacked(rec, id, ctx, g, clock)
    ensures ContextsBacked(rec, contexts[id := ctx], grants[id := g], clock)
  {
  }

  // ---------- Messages ----------

  /** A signature that checks out goes back to the statement, or its twin, signed before. */
  lemma Traced(crypto: Crypto, rec: Record, key: Key, t: Statement, signature: Bytes, clock: nat)
    requires SignedInOrder(rec.signed, clock) && WellSized(t)
    requires Genuine(crypto, rec.signed, t, signature) && NoCollision(crypto, rec.signed, t)
    requires Signs(crypto, key, t, signature) && crypto.deviceOf(key) == t.device
    ensures Vouched(rec, t, clock)
  {
    var s :| s in rec.signed && s.device == t.device && crypto.hash(Layout(s)) == crypto.hash(Layout(t));
    LayoutShared(s, t);
  }

  /** A message as the world hears it: the record grows by its arrival, at position `k`. */
  ghost predicate Heard(crypto: Crypto, w: World, rec: Record, a: Arrival, k: nat) {
    && Inv(crypto, w) && w.clock <= a.at && rec == Hear(w.record, a) && k == |w.record.inbox|
    && Typed(a.message)
    && (Carries(a.message) ==>
          && Genuine(crypto, w.record.signed, Checked(w.server, a.message), a.message.signature)
          && NoCollision(crypto, w.record.signed, Checked(w.server, a.message)))
  }

  lemma HeardBasics(crypto: Crypto, w: World, rec: Record, a: Arrival, k: nat)
    requires Heard(crypto, w, rec, a, k)
    ensures Longer(w.record, rec) && SignedInOrder(rec.signed, a.at) && PacketsBacked(rec, w.forwards)
    ensures IntentsBacked(rec, w.server.intents, w.opening, a.at)
    ensures k < |rec.inbox| == k + 1 && rec.inbox[k] == a
  {
    IntentsStay(w.record, rec, w.server.intents, w.opening, w.clock, a.at);
    PacketsStay(w.record, rec, w.forwards);
  }

  /** Contexts are untouched by a message that acknowledges no establish request. */
  lemma HeardContexts(crypto: Crypto, w: World, rec: Record, a: Arrival, k: nat)
    requires Heard(crypto, w, rec, a, k) && !(a.message.EstablishRequest? && a.reply.EstablishAck?)
    ensures ContextsBacked(rec, w.server.table.contexts, w.grants, a.at)
  {
    forall id | id in w.server.table.contexts ensures Quiet(w.record, rec, id) {
    }
    ContextsGrow(w.record, rec, w.server.table.contexts, w.grants, w.clock, a.at);
  }

  lemma RegisterKeeps(crypto: Crypto, s: Server, now: nat, m: Message, peer: Option<Addr>)
    requires m.RegisterRequest? && KeysBound(crypto, s.clients)
    ensures var s' := HandleRegister(crypto, s, now, m, peer).1;
            KeysBound(crypto, s'.clients) && s'.intents == s.intents && s'.table == s.table
  {
  }

  /** What a connect request does to the server. */
  lemma ConnectEffect(crypto: Crypto, s: Server, now: nat, m: Message)
    requires m.ConnectIntent?
    ensures var (reply, s') := HandleConnect(crypto, s, now, m);
            && s'.clients == s.clients && s'.table == s.table
            && (!reply.ConnectInvite? ==> s'.intents == s.intents || s'.intents == Retained(s.intents, now))
            && (reply.ConnectInvite? ==>
                  && s'.intents == Retained(s.intents, now)[m.id := Intent(m.initiator, m.target, m.candidates, [], Pending(now))]
                  && InWindow(now, m.timestamp) && |m.id| == INTENT_ID_BYTES && m.initiator in s.clients
                  && Signs(crypto, s.clients[m.initiator].key, RequestStatement(m.id, m.initiator, m.target, m.timestamp), m.signature))
  {
  }

  lemma ConnectAsks(crypto: Crypto, w: World, rec: Record, a: Arrival, k: nat)
    requires Heard(crypto, w, rec, a, k) && a.message.ConnectIntent? && a.reply.ConnectInvite?
    requires a.reply == HandleConnect(crypto, w.server, a.at, a.message).0
    ensures Asked(rec, k, a.message.id, a.message.initiator, a.message.target)
  {
    var m := a.message;
    HeardBasics(crypto, w, rec, a, k);
    ConnectEffect(crypto, w.server, a.at, m);
    Traced(crypto, rec, w.server.clients[m.initiator].key, RequestStatement(m.id, m.initiator, m.target, m.timestamp), m.signature, a.at);
  }

  lemma ConnectKeeps(crypto: Crypto, w: World, rec: Record, a: Arrival, k: nat)
    requires Heard(crypto, w, rec, a, k) && a.message.ConnectIntent?
    requires a.reply == HandleConnect(crypto, w.server, a.at, a.message).0
    ensures var s' := HandleConnect(crypto, w.server, a.at, a.message).1;
            && IntentsBacked(rec, s'.intents, if a.reply.ConnectInvite? then w.opening[a.message.id := k] else w.opening, a.at)
            && s'.clients == w.server.clients && s'.table == w.server.table
  {
    HeardBasics(crypto, w, rec, a, k);
    ConnectEffect(crypto, w.server, a.at, a.message);
    if a.reply.ConnectInvite? { ConnectAsks(crypto, w, rec, a, k); }
  }

  /** Whatever the outcome, an acceptance does no more to the server than `Accept` and, if it succeeds, authorize. */
  lemma AcceptEffect(crypto: Crypto, s: Server, now: nat, m: Message, random: Option<Token>)
    requires m.AcceptConnect?
    ensures var (reply, s') := HandleAccept(crypto, s, now, m, random);
            && s'.clients == s.clients
            && (s'.intents == s.intents || s'.intents == Accept(s.intents, now, m.id, m.acceptor, m.candidates, random).1)
            && (!reply.CandidateExchange? ==> s'.table == s.table)
  {
  }

  /** What a successful acceptance rests on, and the context it makes. */
  lemma AcceptMeans(crypto: Crypto, s: Server, now: nat, m: Message, random: Option<Token>)
    requires m.AcceptConnect? && HandleAccept(crypto, s, now, m, random).0.CandidateExchange?
    ensures m.id in s.intents && m.acceptor in s.clients && |m.id| == INTENT_ID_BYTES && InWindow(now, m.timestamp)
    ensures var intent := s.intents[m.id];
            && intent.state.Pending? && !TimedOut(intent.state.createdAt, now) && intent.target == m.acceptor
            && Signs(crypto, s.clients[m.acceptor].key, AcceptStatement(m.id, m.acceptor, intent.initiator, m.timestamp), m.signature)
    ensures var contexts := HandleAccept(crypto, s, now, m, random).1.table.contexts;
            && m.id in contexts && contexts == s.table.contexts[m.id := contexts[m.id]]
            && contexts[m.id].initiator == Endpoint(s.intents[m.id].initiator, None)
            && contexts[m.id].target == Endpoint(m.acceptor, None)
  {
  }

  lemma AcceptIntents(rec: Record, intents: Intents, opening: map<IntentId, nat>, now: nat, id: IntentId,
                      acceptor: DeviceId, candidates: Candidates, random: Option<Token>)
    requires IntentsBacked(rec, intents, opening, now)
    ensures IntentsBacked(rec, Accept(intents, now, id, acceptor, candidates, random).1, opening, now)
  {
    if id in intents {
      assert IntentBacked(rec, id, intents[id], opening[id], now);
    }
  }

  /** A successful acceptance is a handshake with whoever opened the intent. */
  lemma AcceptShakes(crypto: Crypto, w: World, rec: Record, a: Arrival, k: nat, random: Option<Token>)
    requires Heard(crypto, w, rec, a, k) && a.message.AcceptConnect? && a.reply.CandidateExchange?
    requires a.reply == HandleAccept(crypto, w.server, a.at, a.message, random).0
    ensures a.message.id in w.server.intents && a.message.id in w.opening
    ensures Handshake(rec, Grant(w.opening[a.message.id], k, k, k), a.message.id,
                      w.server.intents[a.message.id].initiator, a.message.acceptor)
  {
    var m := a.message;
    HeardBasics(crypto, w, rec, a, k);
    AcceptMeans(crypto, w.server, a.at, m, random);
    var intent := w.server.intents[m.id];
    assert IntentBacked(rec, m.id, intent, w.opening[m.id], a.at);
    Traced(crypto, rec, w.server.clients[m.acceptor].key, AcceptStatement(m.id, m.acceptor, intent.initiator, m.timestamp), m.signature, a.at);
  }

  lemma AcceptContexts(crypto: Crypto, w: World, rec: Record, a: Arrival, k: nat, random: Option<Token>)
    requires Heard(crypto, w, rec, a, k) && a.message.AcceptConnect? && a.reply.CandidateExchange?
    requires a.reply == HandleAccept(crypto, w.server, a.at, a.message, random).0
    ensures a.message.id in w.opening
    ensures ContextsBacked(rec, HandleAccept(crypto, w.server, a.at, a.message, random).1.table.contexts,
                           w.grants[a.message.id := Grant(w.opening[a.message.id], k, k, k)], a.at)
  {
    var m := a.message;
    AcceptShakes(crypto, w, rec, a, k, random);
    AcceptMeans(crypto, w.server, a.at, m, random);
    HeardContexts(crypto, w, rec, a, k);
    var contexts := HandleAccept(crypto, w.server, a.at, m, random).1.table.contexts;
    var g := Grant(w.opening[m.id], k, k, k);
    assert ContextBacked(rec, m.id, contexts[m.id], g, a.at);
    ReplaceBacked(rec, w.server.table.contexts, w.grants, a.at, m.id, contexts[m.id], g);
  }

  lemma AcceptKeeps(crypto: Crypto, w: World, rec: Record, a: Arrival, k: nat, random: Option<Token>)
    requires Heard(crypto, w, rec, a, k) && a.message.AcceptConnect?
    requires a.reply == HandleAccept(crypto, w.server, a.at, a.message, random).0
    ensures var s' := HandleAccept(crypto, w.server, a.at, a.message, random).1;
            && IntentsBacked(rec, s'.intents, w.opening, a.at)
            && ContextsBacked(rec, s'.table.contexts, Remember(w.grants, w.opening, w.server.table, k, a), a.at)
            && s'.clients == w.server.clients
  {
    var m := a.message;
    HeardBasics(crypto, w, rec, a, k);
    AcceptIntents(rec, w.server.intents, w.opening, a.at, m.id, m.acceptor, m.candidates, random);
    AcceptEffect(crypto, w.server, a.at, m, random);
    if a.reply.CandidateExchange? {
      AcceptContexts(crypto, w, rec, a, k, random);
    } else {
      HeardContexts(crypto, w, rec, a, k);
    }
  }

  /** Binding changes one end's address, to the one the request came from. */
  lemma BindBacked(rec: Record, rec': Record, a: Arrival, ctx: Context, g: Grant, clock: nat, addr: Addr)
    requires a.message.EstablishRequest? && ContextBacked(rec, a.message.id, ctx, g, clock) && clock <= a.at
    requires rec' == Hear(rec, a) && EstablishedFrom(rec', |rec.inbox|, a.message.id, a.message.device, addr)
    requires BindContext(ctx, a.at, a.message.device, addr).0.Bound?
    ensures var g' := if ctx.initiator.device == a.message.device then g.(initiatorBind := |rec.inbox|)
                      else g.(targetBind := |rec.inbox|);
            ContextBacked(rec', a.message.id, BindContext(ctx, a.at, a.message.device, addr).1, g', a.at)
  {
    var id, device, k := a.message.id, a.message.device, |rec.inbox|;
    HandshakeStays(rec, rec', g, id, ctx.initiator.device, ctx.target.device);
    BindExactly(ctx, a.at, device, addr);
    assert EndBacked(rec', id, device, addr, k, g.accept, k + 1, a.at);
    if ctx.initiator.device != device && ctx.initiator.addr.Some? {
      OtherEndGrows(rec, rec', a, ctx.initiator.device, ctx.initiator.addr.value, g.initiatorBind, g.accept, clock);
    }
    if ctx.target.device != device && ctx.target.addr.Some? {
      OtherEndGrows(rec, rec', a, ctx.target.device, ctx.target.addr.value, g.targetBind, g.accept, clock);
    }
  }

  /** A request of one device leaves the other device's binding the latest. */
  lemma OtherEndGrows(rec: Record, rec': Record, a: Arrival, device: DeviceId, addr: Addr, k: nat, accept: nat, clock: nat)
    requires a.message.EstablishRequest? && a.message.device != device && rec' == Hear(rec, a) && clock <= a.at
    requires EndBacked(rec, a.message.id, device, addr, k, accept, |rec.inbox|, clock)
    ensures EndBacked(rec', a.message.id, device, addr, k, accept, |rec'.inbox|, a.at)
  {
    EndStays(rec, rec', a.message.id, device, addr, k, accept, |rec.inbox|, clock, a.at);
    forall j | k < j < |rec'.inbox| ensures !Acknowledged(rec'.inbox[j], a.message.id, device) {
    }
  }

  /** What an establish request that is acknowledged rests on. */
  ghost predicate EstablishRests(crypto: Crypto, s: Server, a: Arrival)
    requires a.message.EstablishRequest?
  {
    var m := a.message;
    a.reply.EstablishAck? ==>
      && a.peer.Some? && InWindow(a.at, m.timestamp) && |m.id| == INTENT_ID_BYTES && m.device in s.clients
      && Signs(crypto, s.clients[m.device].key, EstablishStatement(m.id, m.device, m.timestamp), m.signature)
  }

  /** What it does: acknowledged, it binds; otherwise it changes no address. */
  ghost predicate EstablishBinds(a: Arrival, table: Table, table': Table)
    requires a.message.EstablishRequest?
  {
    var m := a.message;
    || (table' == table && !a.reply.EstablishAck?)
    || (&& a.peer.Some? && table' == Bind(table, a.at, m.id, m.device, a.peer.value).1
        && (a.reply.EstablishAck? <==> Bind(table, a.at, m.id, m.device, a.peer.value).0.Bound?))
  }

  lemma EstablishEffect(crypto: Crypto, s: Server, a: Arrival)
    requires a.message.EstablishRequest? && a.reply == HandleEstablish(crypto, s, a.at, a.message, a.peer).0
    ensures EstablishRests(crypto, s, a)
    ensures var s' := HandleEstablish(crypto, s, a.at, a.message, a.peer).1;
            EstablishBinds(a, s.table, s'.table) && s'.clients == s.clients && s'.intents == s.intents
  {
  }

  /** A binding that is refused keeps the ends as they are. */
  lemma RefusedBacked(rec: Record, table: Table, grants: map<IntentId, Grant>, now: nat, id: IntentId, device: DeviceId, addr: Addr)
    requires ContextsBacked(rec, table.contexts, grants, now) && !Bind(table, now, id, device, addr).0.Bound?
    ensures ContextsBacked(rec, Bind(table, now, id, device, addr).1.contexts, grants, now)
  {
    if id in table.contexts {
      BindExactly(table.contexts[id], now, device, addr);
      var ctx' := BindContext(table.contexts[id], now, device, addr).1;
      SameEnds(rec, id, table.contexts[id], ctx', grants[id], now);
      ReplaceBacked(rec, table.contexts, grants, now, id, ctx', grants[id]);
      assert grants[id := grants[id]] == grants;
    }
  }

  lemma SameEnds(rec: Record, id: IntentId, ctx: Context, ctx': Context, g: Grant, clock: nat)
    requires ContextBacked(rec, id, ctx, g, clock) && ctx'.initiator == ctx.initiator && ctx'.target == ctx.target
    ensures ContextBacked(rec, id, ctx', g, clock)
  {
  }

  lemma EstablishSigned(crypto: Crypto, w: World, rec: Record, a: Arrival, k: nat)
    requires Heard(crypto, w, rec, a, k) && a.message.EstablishRequest? && a.reply.EstablishAck?
    requires EstablishRests(crypto, w.server, a)
    ensures a.peer.Some? && EstablishedFrom(rec, k, a.message.id, a.message.device, a.peer.value)
  {
    var m := a.message;
    HeardBasics(crypto, w, rec, a, k);
    var t := EstablishStatement(m.id, m.device, m.timestamp);
    Traced(crypto, rec, w.server.clients[m.device].key, t, m.signature, a.at);
    assert Twin(t) == t;
  }

  /** The contexts of other intents hear nothing new. */
  lemma OthersGrow(crypto: Crypto, w: World, rec: Record, a: Arrival, k: nat)
    requires Heard(crypto, w, rec, a, k) && a.message.EstablishRequest?
    ensures ContextsBacked(rec, w.server.table.contexts - {a.message.id}, w.grants, a.at)
  {
    HeardBasics(crypto, w, rec, a, k);
    var others := w.server.table.contexts - {a.message.id};
    forall other | other in others ensures Quiet(w.record, rec, other) {
    }
    ContextsGrow(w.record, rec, others, w.grants, w.clock, a.at);
  }

  lemma EstablishContexts(crypto: Crypto, w: World, rec: Record, a: Arrival, k: nat, table': Table)
    requires Heard(crypto, w, rec, a, k) && a.message.EstablishRequest? && a.reply.EstablishAck?
    requires EstablishRests(crypto, w.server, a) && EstablishBinds(a, w.server.table, table')
    ensures ContextsBacked(rec, table'.contexts, Remember(w.grants, w.opening, w.server.table, k, a), a.at)
  {
    EstablishSigned(crypto, w, rec, a, k);
    OthersGrow(crypto, w, rec, a, k);
    BindsBacked(w.record, rec, a, w.server.table, w.grants, w.clock);
  }

  lemma BindsBacked(rec: Record, rec': Record, a: Arrival, table: Table, grants: map<IntentId, Grant>, clock: nat)
    requires a.message.EstablishRequest? && a.peer.Some? && rec' == Hear(rec, a) && clock <= a.at
    requires ContextsBacked(rec, table.contexts, grants, clock)
    requires ContextsBacked(rec', table.contexts - {a.message.id}, grants, a.at)
    requires EstablishedFrom(rec', |rec.inbox|, a.message.id, a.message.device, a.peer.value)
    requires Bind(table, a.at, a.message.id, a.message.device, a.peer.value).0.Bound?
    ensures var id := a.message.id;
            && id in table.contexts && id in grants
            && ContextsBacked(rec', Bind(table, a.at, id, a.message.device, a.peer.value).1.contexts,
                 grants[id := if table.contexts[id].initiator.device == a.message.device
                              then grants[id].(initiatorBind := |rec.inbox|) else grants[id].(targetBind := |rec.inbox|)], a.at)
  {
    var id, k := a.message.id, |rec.inbox|;
    var ctx, g := table.contexts[id], grants[id];
    BindBacked(rec, rec', a, ctx, g, clock, a.peer.value);
    var ctx' := BindContext(ctx, a.at, a.message.device, a.peer.value).1;
    var g' := if ctx.initiator.device == a.message.device then g.(initiatorBind := k) else g.(targetBind := k);
    InsertBacked(rec', table.contexts, grants, a.at, id, ctx', g');
  }

  lemma InsertBacked(rec: Record, contexts: map<IntentId, Context>, grants: map<IntentId, Grant>, clock: nat,
                     id: IntentId, ctx: Context, g: Grant)
    requires ContextsBacked(rec, contexts - {id}, grants, clock) && ContextBacked(rec, id, ctx, g, clock)
    ensures ContextsBacked(rec, contexts[id := ctx], grants[id := g], clock)
  {
    ReplaceBacked(rec, contexts - {id}, grants, clock, id, ctx, g);
    assert (contexts - {id})[id := ctx] == contexts[id := ctx];
  }

  lemma EstablishKept(crypto: Crypto, w: World, rec: Record, a: Arrival, k: nat, table': Table)
    requires Heard(crypto, w, rec, a, k) && a.message.EstablishRequest?
    requires EstablishRests(crypto, w.server, a) && EstablishBinds(a, w.server.table, table')
    ensures ContextsBacked(rec, table'.contexts, Remember(w.grants, w.opening, w.server.table, k, a), a.at)
  {
    if a.reply.EstablishAck? {
      EstablishContexts(crypto, w, rec, a, k, table');
    } else {
      HeardContexts(crypto, w, rec, a, k);
      if table' != w.server.table {
        RefusedBacked(rec, w.server.table, w.grants, a.at, a.message.id, a.message.device, a.peer.value);
      }
    }
  }

  lemma EstablishKeeps(crypto: Crypto, w: World, rec: Record, a: Arrival, k: nat)
    requires Heard(crypto, w, rec, a, k) && a.message.EstablishRequest?
    requires a.reply == HandleEstablish(crypto, w.server, a.at, a.message, a.peer).0
    ensures var s' := HandleEstablish(crypto, w.server, a.at, a.message, a.peer).1;
            && ContextsBacked(rec, s'.table.contexts, Remember(w.grants, w.opening, w.server.table, k, a), a.at)
            && s'.clients == w.server.clients && s'.intents == w.server.intents
  {
    EstablishEffect(crypto, w.server, a);
    EstablishKept(crypto, w, rec, a, k, HandleEstablish(crypto, w.server, a.at, a.message, a.peer).1.table);
  }

  lemma MessageKeeps(crypto: Crypto, w: World, step: Step)
    requires Inv(crypto, w) && Enabled(crypto, w, step) && step.MessageStep?
    ensures Inv(crypto, Apply(crypto, w, step))
  {
    var reply := Handle(crypto, w.server, step.now, step.message, step.peer, step.random).0;
    var a, k := Arrival(step.message, step.peer, step.now, reply), |w.record.inbox|;
    var rec := Hear(w.record, a);
    HeardBasics(crypto, w, rec, a, k);
    match step.message
    case RegisterRequest(_, _, _, _) =>
      RegisterKeeps(crypto, w.server, step.now, step.message, step.peer);
      HeardContexts(crypto, w, rec, a, k);
    case ConnectIntent(_, _, _, _, _, _) =>
      ConnectKeeps(crypto, w, rec, a, k);
      HeardContexts(crypto, w, rec, a, k);
    case AcceptConnect(_, _, _, _, _) => AcceptKeeps(crypto, w, rec, a, k, step.random);
    case EstablishRequest(_, _, _, _) => EstablishKeeps(crypto, w, rec, a, k);
    case _ => HeardContexts(crypto, w, rec, a, k);
  }

  // ---------- Packets and sweeps ----------

  /** Forwarding keeps who and where the two ends are. */
  lemma ForwardBacked(rec: Record, id: IntentId, ctx: Context, g: Grant, rate: nat, now: nat, source: Addr, len: nat)
    requires ContextBacked(rec, id, ctx, g, now)
    ensures var (dst, ctx') := ForwardContext(ctx, rate, now, source, len);
            && ContextBacked(rec, id, ctx', g, now)
            && (dst.Some? ==> Consented(rec, Packet(id, source, dst.value, now, |rec.inbox|)))
  {
    var (dst, ctx') := ForwardContext(ctx, rate, now, source, len);
    if dst.Some? {
      assert Backs(rec, g, Packet(id, source, dst.value, now, |rec.inbox|), ctx.initiator.device, ctx.target.device,
                   ctx.initiator.addr.value, ctx.target.addr.value);
    }
  }

  lemma PacketKeeps(crypto: Crypto, w: World, step: Step)
    requires Inv(crypto, w) && Enabled(crypto, w, step) && step.PacketStep?
    ensures Inv(crypto, Apply(crypto, w, step))
  {
    WorldStays(crypto, w, w.record, step.now);
    PassKeeps(w.record, w.server.table, w.grants, w.forwards, step.now, step.token, step.source, step.len);
  }

  lemma PassKeeps(rec: Record, table: Table, grants: map<IntentId, Grant>, forwards: seq<Packet>, now: nat,
                  token: Token, source: Addr, len: nat)
    requires ContextsBacked(rec, table.contexts, grants, now) && PacketsBacked(rec, forwards)
    ensures var (dst, table') := GetDestination(table, now, token, source, len);
            && ContextsBacked(rec, table'.contexts, grants, now)
            && (dst.Some? ==>
                  && token in table.tokenIndex
                  && PacketsBacked(rec, forwards + [Packet(table.tokenIndex[token], source, dst.value, now, |rec.inbox|)]))
  {
    if !Blocklisted(table.failed, source.ip, now) && token in table.tokenIndex && table.tokenIndex[token] in table.contexts {
      var id := table.tokenIndex[token];
      ForwardBacked(rec, id, table.contexts[id], grants[id], table.rate, now, source, len);
      var ctx' := ForwardContext(table.contexts[id], table.rate, now, source, len).1;
      ReplaceBacked(rec, table.contexts, grants, now, id, ctx', grants[id]);
      assert grants[id := grants[id]] == grants;
    }
  }

  lemma CloseKeeps(crypto: Crypto, w: World, step: Step)
    requires Inv(crypto, w) && Enabled(crypto, w, step) && step.CloseStep?
    ensures Inv(crypto, Apply(crypto, w, step))
  {
    WorldStays(crypto, w, w.record, step.now);
    var contexts := w.server.table.contexts;
    if step.id in contexts {
      assert ContextBacked(w.record, step.id, contexts[step.id], w.grants[step.id], step.now);
    }
  }

  lemma SweepIntentsKeeps(crypto: Crypto, w: World, step: Step)
    requires Inv(crypto, w) && Enabled(crypto, w, step) && step.SweepIntentsStep?
    ensures Inv(crypto, Apply(crypto, w, step))
  {
    WorldStays(crypto, w, w.record, step.now);
    forall id | id in w.server.intents
      ensures IntentBacked(w.record, id, ExpireOne(w.server.intents[id], step.now), w.opening[id], step.now)
    {
      assert IntentBacked(w.record, id, w.server.intents[id], w.opening[id], step.now);
    }
  }

  lemma StepKeeps(crypto: Crypto, w: World, step: Step)
    requires Inv(crypto, w) && Enabled(crypto, w, step)
    ensures Inv(crypto, Apply(crypto, w, step))
  {
    match step
    case SignStep(now, s) => WorldStays(crypto, w, Sign(w.record, now, s), now);
    case MessageStep(_, _, _, _) => MessageKeeps(crypto, w, step);
    case PacketStep(_, _, _, _) => PacketKeeps(crypto, w, step);
    case CloseStep(_, _) => CloseKeeps(crypto, w, step);
    case SweepTableStep(now) => WorldStays(crypto, w, w.record, now);
    case SweepIntentsStep(_) => SweepIntentsKeeps(crypto, w, step);
  }

  lemma {:induction false} RunKeeps(crypto: Crypto, states: seq<World>, steps: seq<Step>, n: nat)
    requires Run(crypto, states, steps) && n <= |steps|
    ensures Inv(crypto, states[n])
  {
    if n > 0 {
      RunKeeps(crypto, states, steps, n - 1);
      StepKeeps(crypto, states[n - 1], steps[n - 1]);
    }
  }

  /** Main result: in every run from an empty relay, whoever sends, each packet passed under an intent from one
      address to another has behind it
      - the message that registered the intent, vouched for by its initiator before it arrived,
      - the message that accepted it, at most 30 s later, vouched for by its target before it arrived,
      - for either device, a signed establish request after that; the device's address is the one from which the
        latest acknowledged request of that device came.
      Vouched for means signed as a request or as an acceptance: when it was signed as what it is taken for is the subject of `SignedConsent`. */
  lemma MutualConsent(crypto: Crypto, states: seq<World>, steps: seq<Step>, n: nat, k: nat)
    requires Run(crypto, states, steps) && n <= |steps| && k < |states[n].forwards|
    ensures Consented(states[n].record, states[n].forwards[k])
  {
    RunKeeps(crypto, states, steps, n);
  }
}
