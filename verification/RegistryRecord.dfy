/** Who is registered, and under which session number, by the record of messages and replies alone. */
module RegistryRecord {
  import opened Words
  import opened Forwarding
  import opened Relay
  import opened Consent

  /** The arrival registered the device. */
  predicate Registering(a: Arrival, device: DeviceId) {
    a.message.RegisterRequest? && a.message.device == device && a.reply.RegisterAck?
  }

  /** The arrival used up a session number: it registered a device or found the registry full. */
  predicate Numbering(a: Arrival) {
    a.message.RegisterRequest? && (a.reply.RegisterAck? || a.reply == Refused(RegistryFull))
  }

  function Numbers(inbox: seq<Arrival>): nat {
    if inbox == [] then 0 else Numbers(inbox[..|inbox| - 1]) + if Numbering(inbox[|inbox| - 1]) then 1 else 0
  }

  /** The latest registration of the device. */
  ghost predicate RegisteredAt(inbox: seq<Arrival>, device: DeviceId, k: nat) {
    && k < |inbox| && Registering(inbox[k], device)
    && forall j :: k < j < |inbox| ==> !Registering(inbox[j], device)
  }

  predicate Fresh(at: nat, now: nat) {
    at > SaturatingSub(now, STALE_REGISTRATION_MS)
  }

  predicate AsRegistered(a: Arrival, c: Client) {
    a.message.RegisterRequest? && a.reply.RegisterAck? && c == Client(a.reply.session, a.at, a.message.key, a.peer)
  }

  ghost predicate ClientTold(inbox: seq<Arrival>, device: DeviceId, c: Client, k: nat) {
    RegisteredAt(inbox, device, k) && AsRegistered(inbox[k], c)
  }

  ghost predicate Told(inbox: seq<Arrival>, clients: map<DeviceId, Client>) {
    forall d :: d in clients ==> exists k: nat :: ClientTold(inbox, d, clients[d], k)
  }

  ghost predicate Kept(inbox: seq<Arrival>, clients: map<DeviceId, Client>, clock: nat) {
    forall d, k: nat :: RegisteredAt(inbox, d, k) && Fresh(inbox[k].at, clock) ==> d in clients
  }

  ghost predicate Sessions(inbox: seq<Arrival>) {
    forall k :: 0 <= k < |inbox| && inbox[k].message.RegisterRequest? && inbox[k].reply.RegisterAck? ==>
      inbox[k].reply == RegisterAck((1 + Numbers(inbox[..k])) % U64, inbox[k].peer)
  }

  ghost predicate Counted(inbox: seq<Arrival>, next: nat) {
    next == (1 + Numbers(inbox)) % U64 && Sessions(inbox)
  }

  ghost predicate Recorded(w: World) {
    && Told(w.record.inbox, w.server.clients) && Kept(w.record.inbox, w.server.clients, w.clock)
    && Counted(w.record.inbox, w.server.nextSession)
    && |w.server.clients| <= MAX_REGISTRATIONS
  }

  // ---------- What an arrival does to the registry ----------

  /** Checks that have nothing to do with who else is registered. */
  predicate Proper(crypto: Crypto, now: nat, m: Message)
    requires m.RegisterRequest?
  {
    && InWindow(now, m.timestamp) && crypto.validKey(m.key) && crypto.deviceOf(m.key) == m.device
    && |m.signature| == SIGNATURE_BYTES && Signs(crypto, m.key, RegisterStatement(m.device, m.key, m.timestamp), m.signature)
  }

  lemma RegisterMeans(crypto: Crypto, s: Server, now: nat, m: Message, peer: Option<Addr>)
    requires m.RegisterRequest?
    ensures var (reply, s') := HandleRegister(crypto, s, now, m, peer);
            var clients := EvictStale(s.clients, now);
            && (!Proper(crypto, now, m) ==> !Numbering(Arrival(m, peer, now, reply)) && s' == s)
            && (Proper(crypto, now, m) && |clients| >= MAX_REGISTRATIONS ==>
                  reply == Refused(RegistryFull) && s'.clients == clients && s'.nextSession == (s.nextSession + 1) % U64)
            && (Proper(crypto, now, m) && |clients| < MAX_REGISTRATIONS ==>
                  && reply == RegisterAck(s.nextSession, peer) && s'.nextSession == (s.nextSession + 1) % U64
                  && s'.clients == clients[m.device := Client(s.nextSession, now, m.key, peer)])
  {
  }

  /** What an arrival may do to the clients. */
  ghost predicate Moves(clients: map<DeviceId, Client>, clients': map<DeviceId, Client>, a: Arrival) {
    forall d :: Moved(clients, clients', a, d)
  }

  predicate Moved(clients: map<DeviceId, Client>, clients': map<DeviceId, Client>, a: Arrival, d: DeviceId) {
    if Registering(a, d) then d in clients' && AsRegistered(a, clients'[d])
    else
      && (d in clients' ==> d in clients && clients'[d] == clients[d])
      && (d in clients && Fresh(clients[d].lastSeen, a.at) ==> d in clients')
  }

  lemma RegisterMoves(crypto: Crypto, s: Server, now: nat, m: Message, peer: Option<Addr>)
    requires m.RegisterRequest? && |s.clients| <= MAX_REGISTRATIONS
    ensures var (reply, s') := HandleRegister(crypto, s, now, m, peer);
            Moves(s.clients, s'.clients, Arrival(m, peer, now, reply)) && |s'.clients| <= MAX_REGISTRATIONS
  {
    RegisterMeans(crypto, s, now, m, peer);
    EvictFewer(s.clients, now);
    var (reply, s') := HandleRegister(crypto, s, now, m, peer);
    forall d ensures Moved(s.clients, s'.clients, Arrival(m, peer, now, reply), d) {
    }
    var clients := EvictStale(s.clients, now);
    if reply.RegisterAck? {
      assert s'.clients.Keys == clients.Keys + {m.device};
      assert |s'.clients.Keys| <= |clients.Keys| + 1;
    }
  }

  lemma EvictFewer(clients: map<DeviceId, Client>, now: nat)
    ensures |EvictStale(clients, now)| <= |clients|
  {
    Fewer(EvictStale(clients, now).Keys, clients.Keys);
  }

  lemma {:induction false} Fewer<T>(a: set<T>, b: set<T>)
    requires a <= b
    ensures |a| <= |b|
  {
    assert b == a + (b - a);
  }

  lemma HandleMoves(crypto: Crypto, s: Server, now: nat, m: Message, peer: Option<Addr>, random: Option<Token>)
    requires |s.clients| <= MAX_REGISTRATIONS
    ensures var (reply, s') := Handle(crypto, s, now, m, peer, random);
            && Moves(s.clients, s'.clients, Arrival(m, peer, now, reply)) && |s'.clients| <= MAX_REGISTRATIONS
            && s'.nextSession == (if Numbering(Arrival(m, peer, now, reply)) then (s.nextSession + 1) % U64 else s.nextSession)
            && (m.RegisterRequest? && reply.RegisterAck? ==> reply == RegisterAck(s.nextSession, peer))
  {
    var (reply, s') := Handle(crypto, s, now, m, peer, random);
    if m.RegisterRequest? {
      RegisterMoves(crypto, s, now, m, peer);
      RegisterMeans(crypto, s, now, m, peer);
    } else {
      OtherKeeps(crypto, s, now, m, peer, random);
      forall d ensures Moved(s.clients, s.clients, Arrival(m, peer, now, reply), d) {
      }
    }
  }

  lemma OtherKeeps(crypto: Crypto, s: Server, now: nat, m: Message, peer: Option<Addr>, random: Option<Token>)
    requires !m.RegisterRequest?
    ensures var s' := Handle(crypto, s, now, m, peer, random).1; s'.clients == s.clients && s'.nextSession == s.nextSession
  {
  }

  // ---------- Over runs ----------

  lemma RegisteredMore(inbox: seq<Arrival>, a: Arrival, d: DeviceId, k: nat)
    ensures k < |inbox| ==> (RegisteredAt(inbox + [a], d, k) <==> RegisteredAt(inbox, d, k) && !Registering(a, d))
    ensures RegisteredAt(inbox + [a], d, |inbox|) <==> Registering(a, d)
    ensures RegisteredAt(inbox + [a], d, k) ==> k <= |inbox|
  {
    var more := inbox + [a];
    if k < |inbox| && RegisteredAt(more, d, k) {
      forall j | k < j < |inbox| ensures !Registering(inbox[j], d) { assert more[j] == inbox[j]; }
      assert more[|inbox|] == a;
    }
  }

  lemma {:induction false} ToldMore(inbox: seq<Arrival>, clients: map<DeviceId, Client>, clients': map<DeviceId, Client>, a: Arrival, d: DeviceId)
    requires Told(inbox, clients) && Moved(clients, clients', a, d) && d in clients'
    ensures exists k: nat :: ClientTold(inbox + [a], d, clients'[d], k)
  {
    if Registering(a, d) {
      RegisteredMore(inbox, a, d, 0);
      assert ClientTold(inbox + [a], d, clients'[d], |inbox|);
    } else {
      var k: nat :| ClientTold(inbox, d, clients[d], k);
      RegisteredMore(inbox, a, d, k);
      assert ClientTold(inbox + [a], d, clients'[d], k);
    }
  }

  /** The one entry of a device is its latest registration. */
  lemma {:induction false} Same(inbox: seq<Arrival>, clients: map<DeviceId, Client>, d: DeviceId, k: nat)
    requires Told(inbox, clients) && d in clients && RegisteredAt(inbox, d, k)
    ensures AsRegistered(inbox[k], clients[d])
  {
    var j: nat :| ClientTold(inbox, d, clients[d], j);
    assert Registering(inbox[j], d) && Registering(inbox[k], d);
    assert j == k;
  }

  lemma {:induction false} KeptMore(inbox: seq<Arrival>, clients: map<DeviceId, Client>, clients': map<DeviceId, Client>, a: Arrival,
                                    clock: nat, d: DeviceId, k: nat)
    requires Told(inbox, clients) && Kept(inbox, clients, clock) && clock <= a.at && Moved(clients, clients', a, d)
    requires RegisteredAt(inbox + [a], d, k) && Fresh((inbox + [a])[k].at, a.at)
    ensures d in clients'
  {
    RegisteredMore(inbox, a, d, k);
    if k < |inbox| {
      assert d in clients;
      Same(inbox, clients, d, k);
    }
  }

  lemma {:induction false} ArrivalKeeps(inbox: seq<Arrival>, clients: map<DeviceId, Client>, clients': map<DeviceId, Client>, a: Arrival, clock: nat)
    requires Told(inbox, clients) && Kept(inbox, clients, clock) && clock <= a.at && Moves(clients, clients', a)
    ensures Told(inbox + [a], clients') && Kept(inbox + [a], clients', a.at)
  {
    forall d | d in clients' ensures exists k: nat :: ClientTold(inbox + [a], d, clients'[d], k) {
      assert Moved(clients, clients', a, d);
      ToldMore(inbox, clients, clients', a, d);
    }
    forall d, k: nat | RegisteredAt(inbox + [a], d, k) && Fresh((inbox + [a])[k].at, a.at) ensures d in clients' {
      assert Moved(clients, clients', a, d);
      KeptMore(inbox, clients, clients', a, clock, d, k);
    }
  }

  lemma WrapStep(n: nat)
    ensures (n % U64 + 1) % U64 == (n + 1) % U64
  {
  }

  lemma {:induction false} CountedMore(inbox: seq<Arrival>, a: Arrival, next: nat)
    requires Counted(inbox, next)
    requires a.message.RegisterRequest? && a.reply.RegisterAck? ==> a.reply == RegisterAck(next, a.peer)
    ensures Counted(inbox + [a], if Numbering(a) then (next + 1) % U64 else next)
  {
    var more := inbox + [a];
    assert more[..|inbox|] == inbox;
    WrapStep(1 + Numbers(inbox));
    forall k | 0 <= k < |more| && more[k].message.RegisterRequest? && more[k].reply.RegisterAck?
      ensures more[k].reply == RegisterAck((1 + Numbers(more[..k])) % U64, more[k].peer)
    {
      if k < |inbox| { assert more[..k] == inbox[..k]; }
    }
  }

  lemma {:induction false} MessageRecords(crypto: Crypto, w: World, now: nat, m: Message, peer: Option<Addr>, random: Option<Token>)
    requires Recorded(w) && w.clock <= now
    ensures var (reply, s') := Handle(crypto, w.server, now, m, peer, random);
            var inbox := w.record.inbox + [Arrival(m, peer, now, reply)];
            && Told(inbox, s'.clients) && Kept(inbox, s'.clients, now) && Counted(inbox, s'.nextSession)
            && |s'.clients| <= MAX_REGISTRATIONS
  {
    var (reply, s') := Handle(crypto, w.server, now, m, peer, random);
    var a := Arrival(m, peer, now, reply);
    HandleMoves(crypto, w.server, now, m, peer, random);
    Arrives(w, a, s'.clients, s'.nextSession);
  }

  lemma {:induction false} Arrives(w: World, a: Arrival, clients: map<DeviceId, Client>, next: nat)
    requires Recorded(w) && w.clock <= a.at && Moves(w.server.clients, clients, a)
    requires next == if Numbering(a) then (w.server.nextSession + 1) % U64 else w.server.nextSession
    requires a.message.RegisterRequest? && a.reply.RegisterAck? ==> a.reply == RegisterAck(w.server.nextSession, a.peer)
    ensures var inbox := w.record.inbox + [a];
            Told(inbox, clients) && Kept(inbox, clients, a.at) && Counted(inbox, next)
  {
    ArrivalKeeps(w.record.inbox, w.server.clients, clients, a, w.clock);
    CountedMore(w.record.inbox, a, w.server.nextSession);
  }

  lemma {:induction false} LaterKept(inbox: seq<Arrival>, clients: map<DeviceId, Client>, clock: nat, now: nat)
    requires Kept(inbox, clients, clock) && clock <= now
    ensures Kept(inbox, clients, now)
  {
  }

  lemma {:induction false} StepRecords(crypto: Crypto, w: World, step: Consent.Step)
    requires Recorded(w) && Consent.Enabled(crypto, w, step)
    ensures Recorded(Consent.Apply(crypto, w, step))
  {
    match step
    case MessageStep(now, m, peer, random) => MessageRecords(crypto, w, now, m, peer, random);
    case _ => LaterKept(w.record.inbox, w.server.clients, w.clock, step.now);
  }

  lemma {:induction false} RunRecords(crypto: Crypto, states: seq<World>, steps: seq<Consent.Step>, n: nat)
    requires Consent.Run(crypto, states, steps) && n <= |steps|
    ensures Recorded(states[n])
  {
    if n > 0 {
      RunRecords(crypto, states, steps, n - 1);
      StepRecords(crypto, states[n - 1], steps[n - 1]);
    }
  }

  // ---------- Main results ----------

  /** Over every run a registered device is held with the key, the time, the address and the session number of its latest
      registration, and one that registered less than five minutes ago is still registered. */
  lemma {:induction false} RegisteredIsLatest(crypto: Crypto, states: seq<World>, steps: seq<Consent.Step>, n: nat, device: DeviceId)
    requires Consent.Run(crypto, states, steps) && n <= |steps|
    ensures var inbox, clients := states[n].record.inbox, states[n].server.clients;
            && (device in clients ==> exists k: nat :: RegisteredAt(inbox, device, k) && AsRegistered(inbox[k], clients[device]))
            && (forall k: nat :: RegisteredAt(inbox, device, k) && Fresh(inbox[k].at, states[n].clock) ==> device in clients)
  {
    RunRecords(crypto, states, steps, n);
    var inbox, clients := states[n].record.inbox, states[n].server.clients;
    if device in clients {
      var k: nat :| ClientTold(inbox, device, clients[device], k);
    }
  }

  /** So a device is discovered to be online only if it has registered, and surely if it did so less than five minutes
      ago. */
  lemma {:induction false} DiscoverExactly(crypto: Crypto, states: seq<World>, steps: seq<Consent.Step>, n: nat, now: nat,
                                           device: DeviceId, peer: Option<Addr>, random: Option<Token>)
    requires Consent.Run(crypto, states, steps) && n <= |steps|
    ensures var inbox, s := states[n].record.inbox, states[n].server;
            var (reply, s') := Handle(crypto, s, now, DiscoverRequest(device), peer, random);
            && s' == s && reply.DiscoverResponse? && reply.target == device && (reply.online <==> device in s.clients)
            && (reply.online ==> exists k: nat :: RegisteredAt(inbox, device, k))
            && (forall k: nat :: RegisteredAt(inbox, device, k) && Fresh(inbox[k].at, states[n].clock) ==> reply.online)
  {
    RegisteredIsLatest(crypto, states, steps, n, device);
  }

  /** Session numbers count the registrations that got as far as the registry: no two of up to 2^64 are alike. */
  lemma {:induction false} SessionsDiffer(crypto: Crypto, states: seq<World>, steps: seq<Consent.Step>, n: nat, j: nat, k: nat)
    requires Consent.Run(crypto, states, steps) && n <= |steps| && j < k < |states[n].record.inbox|
    requires var inbox := states[n].record.inbox;
             && inbox[j].message.RegisterRequest? && inbox[j].reply.RegisterAck?
             && inbox[k].message.RegisterRequest? && inbox[k].reply.RegisterAck?
             && Numbers(inbox) < U64
    ensures var inbox := states[n].record.inbox;
            && inbox[j].reply.session == (1 + Numbers(inbox[..j])) % U64
            && inbox[j].reply.session != inbox[k].reply.session
  {
    RunRecords(crypto, states, steps, n);
    CountedDiffer(states[n].record.inbox, j, k);
  }

  lemma {:induction false} CountedDiffer(inbox: seq<Arrival>, j: nat, k: nat)
    requires Sessions(inbox) && j < k < |inbox| && Numbers(inbox) < U64
    requires inbox[j].message.RegisterRequest? && inbox[j].reply.RegisterAck?
    requires inbox[k].message.RegisterRequest? && inbox[k].reply.RegisterAck?
    ensures inbox[j].reply.session == (1 + Numbers(inbox[..j])) % U64
    ensures inbox[j].reply.session != inbox[k].reply.session
  {
    NumbersRise(inbox, j, k);
    SmallDiffer(1 + Numbers(inbox[..j]), 1 + Numbers(inbox[..k]));
  }

  lemma {:induction false} NumbersRise(inbox: seq<Arrival>, j: nat, k: nat)
    requires j < k < |inbox| && Numbering(inbox[j]) && Numbering(inbox[k])
    ensures Numbers(inbox[..j]) < Numbers(inbox[..k]) < Numbers(inbox)
  {
    NumbersGrow(inbox, j + 1, k);
    NumbersGrow(inbox, k + 1, |inbox|);
    assert inbox[..j + 1][..j] == inbox[..j] && inbox[..k + 1][..k] == inbox[..k] && inbox[..|inbox|] == inbox;
  }

  lemma {:induction false} NumbersGrow(inbox: seq<Arrival>, j: nat, k: nat)
    requires j <= k <= |inbox|
    ensures Numbers(inbox[..j]) <= Numbers(inbox[..k])
  {
    if j < k {
      NumbersGrow(inbox, j, k - 1);
      assert inbox[..k][..k - 1] == inbox[..k - 1];
    }
  }

  lemma SmallDiffer(a: nat, b: nat)
    requires 1 <= a < b <= U64
    ensures a % U64 != b % U64
  {
  }

  /** The devices that registered less than five minutes ago. */
  ghost function Recently(inbox: seq<Arrival>, now: nat): set<DeviceId> {
    set k | 0 <= k < |inbox| && inbox[k].message.RegisterRequest? && RegisteredAt(inbox, inbox[k].message.device, k)
            && Fresh(inbox[k].at, now) :: inbox[k].message.device
  }

  /** Main result: over every run a proper registration is turned away exactly when 1024 devices have registered in the last
      five minutes. */
  lemma {:induction false} TurnedAwayExactly(crypto: Crypto, states: seq<World>, steps: seq<Consent.Step>, n: nat,
                                             now: nat, m: Message, peer: Option<Addr>)
    requires Consent.Run(crypto, states, steps) && n <= |steps| && states[n].clock <= now && m.RegisterRequest?
    ensures var reply := HandleRegister(crypto, states[n].server, now, m, peer).0;
            && (reply.RegisterAck? <==>
                  Proper(crypto, now, m) && |Recently(states[n].record.inbox, now)| < MAX_REGISTRATIONS)
            && (reply == Refused(RegistryFull) <==>
                  Proper(crypto, now, m) && |Recently(states[n].record.inbox, now)| >= MAX_REGISTRATIONS)
  {
    RunRecords(crypto, states, steps, n);
    var w := states[n];
    RegisterMeans(crypto, w.server, now, m, peer);
    RecentlyIsKept(w.record.inbox, w.server.clients, w.clock, now);
  }

  lemma {:induction false} RecentlyIsKept(inbox: seq<Arrival>, clients: map<DeviceId, Client>, clock: nat, now: nat)
    requires Told(inbox, clients) && Kept(inbox, clients, clock) && clock <= now
    ensures |Recently(inbox, now)| < MAX_REGISTRATIONS <==> |EvictStale(clients, now)| < MAX_REGISTRATIONS
  {
    var recent := Recently(inbox, now);
    forall d ensures d in recent <==> d in clients && Fresh(clients[d].lastSeen, now) { RecentIsFresh(inbox, clients, clock, now, d); }
    if |clients| >= MAX_REGISTRATIONS {
      assert EvictStale(clients, now).Keys == recent;
    } else {
      Fewer(recent, clients.Keys);
    }
  }

  lemma {:induction false} RecentIsFresh(inbox: seq<Arrival>, clients: map<DeviceId, Client>, clock: nat, now: nat, d: DeviceId)
    requires Told(inbox, clients) && Kept(inbox, clients, clock) && clock <= now
    ensures d in Recently(inbox, now) <==> d in clients && Fresh(clients[d].lastSeen, now)
  {
    if d in Recently(inbox, now) {
      var k :| 0 <= k < |inbox| && inbox[k].message.RegisterRequest? && RegisteredAt(inbox, d, k)
               && Fresh(inbox[k].at, now) && inbox[k].message.device == d;
      assert Fresh(inbox[k].at, clock);
      Same(inbox, clients, d, k);
    }
    if d in clients {
      var k: nat :| ClientTold(inbox, d, clients[d], k);
      assert inbox[k].message.device == d;
    }
  }
}
