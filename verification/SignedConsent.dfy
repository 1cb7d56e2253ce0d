/** When the signatures behind a forwarded packet were made as what they are taken for. A request and an
    acceptance are laid out alike, so the relay cannot tell a signature on the one from a signature on the other.
 */
module SignedConsent {
  import opened Words
  import opened Forwarding
  import opened Rendezvous
  import opened Relay
  import opened Consent

  /** Before the two messages of the handshake arrived the initiator had signed `opening` and the target `closing`. */
  predicate SignedFor(rec: Record, g: Grant, opening: Statement, closing: Statement) {
    && g.connect < |rec.inbox| && g.accept < |rec.inbox|
    && HasSigned(rec, opening, rec.inbox[g.connect].at) && HasSigned(rec, closing, rec.inbox[g.accept].at)
  }

  /** The timestamps the two messages carry. */
  function Stamped(rec: Record, g: Grant): (nat, nat) {
    (if g.connect < |rec.inbox| && rec.inbox[g.connect].message.ConnectIntent? then rec.inbox[g.connect].message.timestamp else 0,
     if g.accept < |rec.inbox| && rec.inbox[g.accept].message.AcceptConnect? then rec.inbox[g.accept].message.timestamp else 0)
  }

  /** The initiator had signed the request and the target the acceptance. */
  predicate AsMeant(rec: Record, g: Grant, id: IntentId, initiator: DeviceId, target: DeviceId) {
    var (c, a) := Stamped(rec, g);
    SignedFor(rec, g, RequestStatement(id, initiator, target, c), AcceptStatement(id, target, initiator, a))
  }

  /** One of the two had signed a request for the other, and the other an acceptance of it. */
  predicate OneOfEach(rec: Record, g: Grant, id: IntentId, initiator: DeviceId, target: DeviceId) {
    var (c, a) := Stamped(rec, g);
    || AsMeant(rec, g, id, initiator, target)
    || SignedFor(rec, g, AcceptStatement(id, initiator, target, c), RequestStatement(id, target, initiator, a))
  }

  ghost predicate PassedAsMeant(rec: Record, p: Packet) {
    exists g, initiator, target, i, t ::
      Backs(rec, g, p, initiator, target, i, t) && AsMeant(rec, g, p.id, initiator, target)
  }

  ghost predicate PassedMutually(rec: Record, p: Packet) {
    exists g, initiator, target, i, t ::
      Backs(rec, g, p, initiator, target, i, t) && OneOfEach(rec, g, p.id, initiator, target)
  }

  /** The only requests and acceptances signed are among `pairs`. */
  ghost predicate SignsOnly(steps: seq<Consent.Step>, pairs: iset<Statement>) {
    forall k :: 0 <= k < |steps| && steps[k].SignStep? && Pairing(steps[k].statement) ==> steps[k].statement in pairs
  }

  /** Some run in which devices sign no other requests and acceptances ends here. */
  ghost predicate Tale(crypto: Crypto, pairs: iset<Statement>, w: World) {
    exists states, steps :: Consent.Run(crypto, states, steps) && SignsOnly(steps, pairs) && states[|steps|] == w
  }

  /** Whatever happens while devices sign only these, behind every packet are a request and an acceptance. */
  ghost predicate AlwaysMutual(pairs: iset<Statement>) {
    forall crypto, w, k :: Tale(crypto, pairs, w) && 0 <= k < |w.forwards| ==> PassedMutually(w.record, w.forwards[k])
  }

  /** And the request is the initiator's. */
  ghost predicate AlwaysAsMeant(pairs: iset<Statement>) {
    forall crypto, w, k :: Tale(crypto, pairs, w) && 0 <= k < |w.forwards| ==> PassedAsMeant(w.record, w.forwards[k])
  }

  /** Timestamps of two messages that can both be fresh when they arrive at most 30 s apart. */
  predicate Close(first: nat, second: nat) {
    second <= first + 2 * TIMESTAMP_WINDOW_MS + INTENT_TIMEOUT_MS && first <= second + 2 * TIMESTAMP_WINDOW_MS
  }

  /** Two devices name each other under one intent, in statements that can open and close a handshake. */
  ghost predicate Facing(pairs: iset<Statement>, s: Statement, t: Statement) {
    && s in pairs && t in pairs && Pairing(s) && Pairing(t) && WellSized(s) && WellSized(t)
    && s.id == t.id && s.device == t.peer && s.peer == t.device && s.device != t.device
    && Close(s.timestamp, t.timestamp)
  }

  // ---------- What is vouched for was signed among them ----------

  lemma {:induction false} SignedAmong(crypto: Crypto, pairs: iset<Statement>, states: seq<World>, steps: seq<Consent.Step>, n: nat)
    requires Consent.Run(crypto, states, steps) && SignsOnly(steps, pairs) && n <= |steps|
    ensures forall s :: s in states[n].record.signed && Pairing(s) ==> s in pairs
  {
    if n > 0 {
      SignedAmong(crypto, pairs, states, steps, n - 1);
      SignedStep(crypto, states[n - 1], steps[n - 1]);
    }
  }

  lemma SignedStep(crypto: Crypto, w: World, step: Consent.Step)
    ensures var signed := Consent.Apply(crypto, w, step).record.signed;
            forall s :: s in signed ==> s in w.record.signed || (step.SignStep? && s == step.statement)
  {
  }

  /** One of the two statements that vouch. */
  function Voucher(rec: Record, s: Statement, before: nat): Statement {
    if HasSigned(rec, s, before) then s else Twin(s)
  }

  lemma WindowsClose(c: nat, request: nat, a: nat, acceptance: nat)
    requires InWindow(c, request) && InWindow(a, acceptance) && c <= a <= c + INTENT_TIMEOUT_MS
    ensures Close(request, acceptance)
  {
  }

  /** The two messages of a handshake were signed for, in statements that face each other. */
  lemma HandshakeFaces(rec: Record, p: Packet, pairs: iset<Statement>, g: Grant, initiator: DeviceId, target: DeviceId, i: Addr, t: Addr)
    returns (opening: Statement, closing: Statement)
    requires Backs(rec, g, p, initiator, target, i, t)
    requires forall s :: s in rec.signed && Pairing(s) ==> s in pairs
    ensures Facing(pairs, opening, closing) && SignedFor(rec, g, opening, closing)
    ensures var (c, a) := Stamped(rec, g);
            && (opening == RequestStatement(p.id, initiator, target, c) || opening == AcceptStatement(p.id, initiator, target, c))
            && (closing == RequestStatement(p.id, target, initiator, a) || closing == AcceptStatement(p.id, target, initiator, a))
  {
    var c, a := rec.inbox[g.connect], rec.inbox[g.accept];
    opening := Voucher(rec, RequestStatement(p.id, initiator, target, c.message.timestamp), c.at);
    closing := Voucher(rec, AcceptStatement(p.id, target, initiator, a.message.timestamp), a.at);
    WindowsClose(c.at, c.message.timestamp, a.at, a.message.timestamp);
  }

  /** Behind every packet of a tale are two statements that face each other. */
  lemma PacketFaces(crypto: Crypto, pairs: iset<Statement>, w: World, k: nat)
    returns (g: Grant, initiator: DeviceId, target: DeviceId, i: Addr, t: Addr, opening: Statement, closing: Statement)
    requires Tale(crypto, pairs, w) && k < |w.forwards|
    ensures Backs(w.record, g, w.forwards[k], initiator, target, i, t)
    ensures Facing(pairs, opening, closing) && SignedFor(w.record, g, opening, closing)
    ensures var (c, a), id := Stamped(w.record, g), w.forwards[k].id;
            && (opening == RequestStatement(id, initiator, target, c) || opening == AcceptStatement(id, initiator, target, c))
            && (closing == RequestStatement(id, target, initiator, a) || closing == AcceptStatement(id, target, initiator, a))
  {
    var states, steps :| Consent.Run(crypto, states, steps) && SignsOnly(steps, pairs) && states[|steps|] == w;
    MutualConsent(crypto, states, steps, |steps|, k);
    SignedAmong(crypto, pairs, states, steps, |steps|);
    g, initiator, target, i, t :| Backs(w.record, g, w.forwards[k], initiator, target, i, t);
    opening, closing := HandshakeFaces(w.record, w.forwards[k], pairs, g, initiator, target, i, t);
  }

  // ---------- Any two that face each other carry a packet ----------

  /** A request and an acceptance as the relay will take them, and when they arrive. */
  datatype Story = Story(s: Statement, t: Statement, connectAt: nat, acceptAt: nat)

  ghost predicate Told(y: Story) {
    && Pairing(y.s) && Pairing(y.t) && WellSized(y.s) && WellSized(y.t)
    && y.s.id == y.t.id && y.s.device == y.t.peer && y.s.peer == y.t.device && y.s.device != y.t.device
    && InWindow(y.connectAt, y.s.timestamp) && InWindow(y.acceptAt, y.t.timestamp)
    && y.connectAt <= y.acceptAt <= y.connectAt + INTENT_TIMEOUT_MS
    && y.connectAt < Stamps()
  }

  /** Two close statements can be told. */
  lemma CanBeTold(s: Statement, t: Statement) returns (y: Story)
    requires Pairing(s) && Pairing(t) && WellSized(s) && WellSized(t)
    requires s.id == t.id && s.device == t.peer && s.peer == t.device && s.device != t.device
    requires Close(s.timestamp, t.timestamp)
    ensures Told(y) && y.s == s && y.t == t
  {
    var request, acceptance := s.timestamp, t.timestamp;
    if acceptance <= request {
      var n := SaturatingSub(request, TIMESTAMP_WINDOW_MS);
      y := Story(s, t, n, n);
    } else if acceptance <= request + TIMESTAMP_WINDOW_MS {
      y := Story(s, t, request, request);
    } else {
      var n := request + TIMESTAMP_WINDOW_MS;
      y := Story(s, t, n, n + INTENT_TIMEOUT_MS);
    }
  }

  /** Everything signed in the story. */
  function Statements(y: Story): seq<Statement>
    requires Pairing(y.s) && Pairing(y.t)
  {
    [RegisterStatement(y.s.device, y.s.device, y.connectAt), RegisterStatement(y.t.device, y.t.device, y.connectAt),
     y.s, y.t,
     EstablishStatement(y.s.id, y.s.device, y.connectAt), EstablishStatement(y.s.id, y.t.device, y.connectAt)]
  }

  /** The signature on the statement at position `n`. */
  function Mark(n: nat): (r: Bytes)
    requires n < 256
    ensures |r| == SIGNATURE_BYTES && r[0] == n
  {
    [n] + seq(63, _ => 0)
  }

  /** Keys are their own device ids, hashing loses nothing, and a mark checks out over its statement only. */
  ghost function Marks(y: Story): Crypto
    requires Pairing(y.s) && Pairing(y.t)
  {
    Crypto(_ => true, key => key, bytes => bytes,
           (key, digest, signature) => exists n :: 0 <= n < 6 && signature == Mark(n) && Marked(y, n, key, digest))
  }

  predicate Marked(y: Story, n: nat, key: Key, digest: Bytes)
    requires Pairing(y.s) && Pairing(y.t) && n < 6
  {
    Statements(y)[n].device == key && Layout(Statements(y)[n]) == digest
  }

  lemma MarkSigns(y: Story, n: nat, t: Statement)
    requires Pairing(y.s) && Pairing(y.t) && n < 6 && Statements(y)[n].device == t.device && Layout(Statements(y)[n]) == Layout(t)
    ensures Signs(Marks(y), t.device, t, Mark(n))
  {
    assert Marked(y, n, t.device, Layout(t));
  }

  lemma MarkNames(y: Story, n: nat, key: Key, digest: Bytes)
    requires Pairing(y.s) && Pairing(y.t) && n < 6 && Marks(y).verify(key, digest, Mark(n))
    ensures Marked(y, n, key, digest)
  {
    var m :| 0 <= m < 6 && Mark(n) == Mark(m) && Marked(y, m, key, digest);
    assert Mark(n)[0] == Mark(m)[0];
  }

  lemma MarkGenuine(y: Story, n: nat, signed: map<Statement, nat>, t: Statement)
    requires Pairing(y.s) && Pairing(y.t) && n < 6 && Statements(y)[n] in signed
    ensures Genuine(Marks(y), signed, t, Mark(n))
  {
    var crypto, s := Marks(y), Statements(y)[n];
    forall key | crypto.verify(key, crypto.hash(Layout(t)), Mark(n))
      ensures s.device == crypto.deviceOf(key) && crypto.hash(Layout(s)) == crypto.hash(Layout(t))
    {
      MarkNames(y, n, key, Layout(t));
    }
    GenuineBy(crypto, signed, t, Mark(n), s);
  }

  lemma GenuineBy(crypto: Crypto, signed: map<Statement, nat>, t: Statement, signature: Bytes, s: Statement)
    requires s in signed
    requires forall key :: crypto.verify(key, crypto.hash(Layout(t)), signature) ==>
               s.device == crypto.deviceOf(key) && crypto.hash(Layout(s)) == crypto.hash(Layout(t))
    ensures Genuine(crypto, signed, t, signature)
  {
  }

  /** A statement that the signature at position `n` will pass for. */
  predicate Passes(y: Story, n: nat, t: Statement)
    requires Pairing(y.s) && Pairing(y.t) && n < 6
  {
    Statements(y)[n].device == t.device && Layout(Statements(y)[n]) == Layout(t)
  }

  /** A key that checks out as the device's own. */
  predicate Owns(crypto: Crypto, device: DeviceId, key: Key) {
    crypto.validKey(key) && crypto.deviceOf(key) == device
  }

  /** All the story needs of the primitives. */
  ghost predicate Suits(crypto: Crypto, y: Story)
    requires Pairing(y.s) && Pairing(y.t)
  {
    && (forall device :: Owns(crypto, device, device))
    && (forall n, t :: 0 <= n < 6 && Passes(y, n, t) ==> Signs(crypto, t.device, t, Mark(n)))
    && (forall n, signed, t :: 0 <= n < 6 && Statements(y)[n] in signed ==> Genuine(crypto, signed, t, Mark(n)))
    && (forall signed, t :: NoCollision(crypto, signed, t))
  }

  lemma MarksSuit(y: Story)
    requires Pairing(y.s) && Pairing(y.t)
    ensures Suits(Marks(y), y)
  {
    forall n, t | 0 <= n < 6 && Passes(y, n, t) ensures Signs(Marks(y), t.device, t, Mark(n)) { MarkSigns(y, n, t); }
    forall n, signed, t | 0 <= n < 6 && Statements(y)[n] in signed ensures Genuine(Marks(y), signed, t, Mark(n)) {
      MarkGenuine(y, n, signed, t);
    }
    forall signed, t ensures NoCollision(Marks(y), signed, t) { NoMarkCollides(y, signed, t); }
    forall device ensures Owns(Marks(y), device, device) { MarksOwn(y, device); }
  }

  lemma NoMarkCollides(y: Story, signed: map<Statement, nat>, t: Statement)
    requires Pairing(y.s) && Pairing(y.t)
    ensures NoCollision(Marks(y), signed, t)
  {
  }

  lemma MarksOwn(y: Story, device: DeviceId)
    requires Pairing(y.s) && Pairing(y.t)
    ensures Owns(Marks(y), device, device)
  {
  }

  // ---------- The run, step by step ----------

  lemma TaleBegins(crypto: Crypto, pairs: iset<Statement>)
    ensures Tale(crypto, pairs, NewWorld(0, 1))
  {
    var states, steps: seq<Consent.Step> := [NewWorld(0, 1)], [];
    assert Consent.Run(crypto, states, steps) && SignsOnly(steps, pairs) && states[|steps|] == NewWorld(0, 1);
  }

  lemma TaleGoesOn(crypto: Crypto, pairs: iset<Statement>, w: World, step: Consent.Step)
    requires Tale(crypto, pairs, w) && Enabled(crypto, w, step)
    requires step.SignStep? && Pairing(step.statement) ==> step.statement in pairs
    ensures Tale(crypto, pairs, Consent.Apply(crypto, w, step))
  {
    var states, steps :| Consent.Run(crypto, states, steps) && SignsOnly(steps, pairs) && states[|steps|] == w;
    var w' := Consent.Apply(crypto, w, step);
    var states', steps' := states + [w'], steps + [step];
    forall k | 0 <= k < |steps'|
      ensures Enabled(crypto, states'[k], steps'[k]) && states'[k + 1] == Consent.Apply(crypto, states'[k], steps'[k])
    {
      if k < |steps| { assert states'[k] == states[k] && states'[k + 1] == states[k + 1] && steps'[k] == steps[k]; }
    }
    assert Consent.Run(crypto, states', steps') && SignsOnly(steps', pairs) && states'[|steps'|] == w';
  }

  /** In the world `w` exactly the first `n` statements of the story are signed. */
  ghost predicate Prepared(y: Story, w: World, n: nat)
    requires Pairing(y.s) && Pairing(y.t) && n <= 6
  {
    && (forall k :: 0 <= k < n ==> Statements(y)[k] in w.record.signed)
    && (forall x :: x in w.record.signed ==> x in Statements(y)[..n])
  }

  lemma StatementsSized(y: Story, n: nat)
    requires Told(y) && n < 6
    ensures WellSized(Statements(y)[n])
    ensures Pairing(Statements(y)[n]) ==> Statements(y)[n] == y.s || Statements(y)[n] == y.t
  {
  }

  lemma {:induction false} SignAll(crypto: Crypto, y: Story, pairs: iset<Statement>, n: nat) returns (w: World)
    requires Told(y) && y.s in pairs && y.t in pairs && n <= 6
    ensures Tale(crypto, pairs, w) && Prepared(y, w, n)
    ensures w.server == NewServer(0, 1) && w.clock == 0 && w.record.inbox == [] && w.forwards == []
  {
    if n == 0 {
      TaleBegins(crypto, pairs);
      w := NewWorld(0, 1);
    } else {
      var before := SignAll(crypto, y, pairs, n - 1);
      var step := SignStep(0, Statements(y)[n - 1]);
      StatementsSized(y, n - 1);
      TaleGoesOn(crypto, pairs, before, step);
      w := Consent.Apply(crypto, before, step);
      SignOneMore(y, before, w, n);
    }
  }

  lemma SignOneMore(y: Story, before: World, w: World, n: nat)
    requires Told(y) && 0 < n <= 6 && Prepared(y, before, n - 1)
    requires w.record == Sign(before.record, 0, Statements(y)[n - 1])
    ensures Prepared(y, w, n)
  {
    var all := Statements(y);
    forall x | x in w.record.signed ensures x in all[..n] {
      if x in before.record.signed {
        assert x in all[..n - 1];
        var k :| 0 <= k < n - 1 && all[k] == x;
        assert all[..n][k] == x;
      } else {
        assert all[..n][n - 1] == x;
      }
    }
  }

  /** A marked message arrives. */
  lemma Say(crypto: Crypto, y: Story, pairs: iset<Statement>, w: World, now: nat, m: Message, peer: Option<Addr>, random: Option<Token>, n: nat)
    returns (w': World)
    requires Told(y) && Suits(crypto, y) && Tale(crypto, pairs, w) && Prepared(y, w, 6) && w.clock <= now
    requires Typed(m) && Carries(m) && n < 6 && m.signature == Mark(n)
    ensures Tale(crypto, pairs, w') && Prepared(y, w', 6) && w'.clock == now
    ensures var (reply, server) := Handle(crypto, w.server, now, m, peer, random);
            && w'.server == server && w'.record == Hear(w.record, Arrival(m, peer, now, reply)) && w'.forwards == w.forwards
  {
    assert Genuine(crypto, w.record.signed, Checked(w.server, m), Mark(n));
    assert NoCollision(crypto, w.record.signed, Checked(w.server, m));
    var step := MessageStep(now, m, peer, random);
    TaleGoesOn(crypto, pairs, w, step);
    w' := Consent.Apply(crypto, w, step);
  }

  // What the relay holds as the story goes on. The initiator is `y.s.device`, the target `y.t.device`.

  const TOKEN: Token := [9]
  const HERE: Addr := Addr(1, 1)
  const THERE: Addr := Addr(2, 2)

  function FirstRegistered(y: Story): Server
    requires Pairing(y.s) && Pairing(y.t)
  {
    Server(map[y.s.device := Client(1, y.connectAt, y.s.device, None)], 2, map[], NewTable(0, 1))
  }

  function Registered(y: Story): Server
    requires Pairing(y.s) && Pairing(y.t)
  {
    Server(map[y.s.device := Client(1, y.connectAt, y.s.device, None),
               y.t.device := Client(2, y.connectAt, y.t.device, None)], 3, map[], NewTable(0, 1))
  }

  function Offered(y: Story): Server
    requires Pairing(y.s) && Pairing(y.t)
  {
    Registered(y).(intents := map[y.s.id := Intent(y.s.device, y.t.device, [], [], Pending(y.connectAt))])
  }

  function Taken(y: Story): Server
    requires Pairing(y.s) && Pairing(y.t)
  {
    Registered(y).(intents := map[y.s.id := Intent(y.s.device, y.t.device, [], [], Accepted(TOKEN))],
                   table := Authorize(NewTable(0, 1), y.acceptAt, y.s.id, TOKEN, y.s.device, y.t.device))
  }

  function Joined(y: Story): Server
    requires Pairing(y.s) && Pairing(y.t)
  {
    Taken(y).(table := Bind(Taken(y).table, y.acceptAt, y.s.id, y.s.device, HERE).1)
  }

  function Linked(y: Story): Server
    requires Pairing(y.s) && Pairing(y.t)
  {
    Joined(y).(table := Bind(Joined(y).table, y.acceptAt, y.s.id, y.t.device, THERE).1)
  }

  function Register0(y: Story): Message requires Pairing(y.s) && Pairing(y.t) {
    RegisterRequest(y.s.device, y.s.device, y.connectAt, Mark(0))
  }

  function Register1(y: Story): Message requires Pairing(y.s) && Pairing(y.t) {
    RegisterRequest(y.t.device, y.t.device, y.connectAt, Mark(1))
  }

  function Connect(y: Story): Message requires Pairing(y.s) && Pairing(y.t) {
    ConnectIntent(y.s.device, y.t.device, y.s.id, [], y.s.timestamp, Mark(2))
  }

  function Agree(y: Story): Message requires Pairing(y.s) && Pairing(y.t) {
    AcceptConnect(y.t.device, y.s.id, [], y.t.timestamp, Mark(3))
  }

  function Establish0(y: Story): Message requires Pairing(y.s) && Pairing(y.t) {
    EstablishRequest(y.s.id, y.s.device, y.connectAt, Mark(4))
  }

  function Establish1(y: Story): Message requires Pairing(y.s) && Pairing(y.t) {
    EstablishRequest(y.s.id, y.t.device, y.connectAt, Mark(5))
  }

  lemma RegisterTaken(crypto: Crypto, s: Server, now: nat, m: Message)
    requires m.RegisterRequest? && Owns(crypto, m.device, m.key) && InWindow(now, m.timestamp) && |m.signature| == SIGNATURE_BYTES
    requires Signs(crypto, m.key, RegisterStatement(m.device, m.key, m.timestamp), m.signature)
    requires |s.clients| < MAX_REGISTRATIONS
    ensures HandleRegister(crypto, s, now, m, None)
            == (RegisterAck(s.nextSession, None),
                s.(nextSession := (s.nextSession + 1) % U64, clients := s.clients[m.device := Client(s.nextSession, now, m.key, None)]))
  {
  }

  lemma ConnectTaken(crypto: Crypto, s: Server, now: nat, m: Message)
    requires m.ConnectIntent? && m.initiator in s.clients && m.target in s.clients && s.intents == map[]
    requires crypto.validKey(s.clients[m.initiator].key) && InWindow(now, m.timestamp)
    requires |m.id| == INTENT_ID_BYTES && |m.signature| == SIGNATURE_BYTES
    requires Signs(crypto, s.clients[m.initiator].key, RequestStatement(m.id, m.initiator, m.target, m.timestamp), m.signature)
    ensures HandleConnect(crypto, s, now, m)
            == (ConnectInvite(m.initiator, m.id),
                s.(intents := map[m.id := Intent(m.initiator, m.target, m.candidates, [], Pending(now))]))
  {
    assert Retained(s.intents, now) == map[];
  }

  lemma AcceptTaken(crypto: Crypto, s: Server, now: nat, m: Message, intent: Intent, token: Token)
    requires m.AcceptConnect? && m.acceptor in s.clients && s.intents == map[m.id := intent]
    requires crypto.validKey(s.clients[m.acceptor].key) && InWindow(now, m.timestamp)
    requires |m.id| == INTENT_ID_BYTES && |m.signature| == SIGNATURE_BYTES
    requires Signs(crypto, s.clients[m.acceptor].key, AcceptStatement(m.id, m.acceptor, intent.initiator, m.timestamp), m.signature)
    requires intent.state.Pending? && !TimedOut(intent.state.createdAt, now) && intent.target == m.acceptor
    ensures HandleAccept(crypto, s, now, m, Some(token))
            == (CandidateExchange(m.id, intent.initiatorCandidates, token),
                s.(intents := map[m.id := intent.(targetCandidates := m.candidates, state := Accepted(token))],
                   table := Authorize(s.table, now, m.id, token, intent.initiator, m.acceptor)))
  {
    var updated := intent.(targetCandidates := m.candidates, state := Accepted(token));
    assert s.intents[m.id := updated] == map[m.id := updated];
  }

  lemma EstablishTaken(crypto: Crypto, s: Server, now: nat, m: Message, addr: Addr)
    requires m.EstablishRequest? && Establishes(crypto, s, now, m)
    ensures HandleEstablish(crypto, s, now, m, Some(addr))
            == (EstablishAck(m.id), s.(table := Bind(s.table, now, m.id, m.device, addr).1))
  {
    EstablishExactly(crypto, s, now, m, Some(addr));
  }

  /** Handling the message takes the relay from one state to the other. */
  ghost predicate LeavesWith(crypto: Crypto, s: Server, now: nat, m: Message, peer: Option<Addr>, random: Option<Token>, s': Server) {
    Handle(crypto, s, now, m, peer, random).1 == s'
  }

  lemma FirstRegisters(crypto: Crypto, y: Story)
    requires Told(y) && Suits(crypto, y)
    ensures LeavesWith(crypto, NewServer(0, 1), y.connectAt, Register0(y), None, None, FirstRegistered(y))
  {
    assert Passes(y, 0, Statements(y)[0]) && Owns(crypto, y.s.device, y.s.device);
    RegisterTaken(crypto, NewServer(0, 1), y.connectAt, Register0(y));
  }

  lemma SecondRegisters(crypto: Crypto, y: Story)
    requires Told(y) && Suits(crypto, y)
    ensures LeavesWith(crypto, FirstRegistered(y), y.connectAt, Register1(y), None, None, Registered(y))
  {
    assert Passes(y, 1, Statements(y)[1]) && Owns(crypto, y.t.device, y.t.device);
    RegisterTaken(crypto, FirstRegistered(y), y.connectAt, Register1(y));
  }

  lemma OfferIsTaken(crypto: Crypto, y: Story)
    requires Told(y) && Suits(crypto, y)
    ensures LeavesWith(crypto, Registered(y), y.connectAt, Connect(y), None, None, Offered(y))
  {
    var t := RequestStatement(y.s.id, y.s.device, y.t.device, y.s.timestamp);
    LayoutShared(y.s, t);
    assert Passes(y, 2, t) && Owns(crypto, y.s.device, y.s.device);
    ConnectTaken(crypto, Registered(y), y.connectAt, Connect(y));
  }

  lemma AcceptanceIsTaken(crypto: Crypto, y: Story)
    requires Told(y) && Suits(crypto, y)
    ensures LeavesWith(crypto, Offered(y), y.acceptAt, Agree(y), None, Some(TOKEN), Taken(y))
  {
    var t := AcceptStatement(y.s.id, y.t.device, y.s.device, y.t.timestamp);
    LayoutShared(y.t, t);
    assert Passes(y, 3, t) && Owns(crypto, y.t.device, y.t.device);
    AcceptTaken(crypto, Offered(y), y.acceptAt, Agree(y), Offered(y).intents[y.s.id], TOKEN);
  }

  lemma FirstEstablishes(crypto: Crypto, y: Story)
    requires Told(y) && Suits(crypto, y)
    ensures LeavesWith(crypto, Taken(y), y.acceptAt, Establish0(y), Some(HERE), None, Joined(y))
  {
    assert Passes(y, 4, Statements(y)[4]) && Owns(crypto, y.s.device, y.s.device);
    EstablishTaken(crypto, Taken(y), y.acceptAt, Establish0(y), HERE);
  }

  lemma SecondEstablishes(crypto: Crypto, y: Story)
    requires Told(y) && Suits(crypto, y)
    ensures LeavesWith(crypto, Joined(y), y.acceptAt, Establish1(y), Some(THERE), None, Linked(y))
  {
    assert Passes(y, 5, Statements(y)[5]) && Owns(crypto, y.t.device, y.t.device);
    EstablishTaken(crypto, Joined(y), y.acceptAt, Establish1(y), THERE);
  }

  lemma PacketPasses(y: Story)
    requires Told(y)
    ensures GetDestination(Linked(y).table, y.acceptAt, TOKEN, HERE, 0).0 == Some(THERE)
    ensures TOKEN in Linked(y).table.tokenIndex && Linked(y).table.tokenIndex[TOKEN] == y.s.id
  {
  }

  /** The messages of the story, in order of arrival. */
  function Messages(y: Story): seq<Message>
    requires Pairing(y.s) && Pairing(y.t)
  {
    [Register0(y), Register1(y), Connect(y), Agree(y), Establish0(y), Establish1(y)]
  }

  /** The first `n` messages have arrived and the relay holds `server`. */
  ghost predicate Reached(crypto: Crypto, pairs: iset<Statement>, y: Story, w: World, n: nat, server: Server)
    requires Told(y) && n <= 6
  {
    && Tale(crypto, pairs, w) && Prepared(y, w, 6) && w.server == server && w.forwards == []
    && w.clock <= (if n <= 3 then y.connectAt else y.acceptAt)
    && |w.record.inbox| == n
    && (forall k :: 0 <= k < n ==> w.record.inbox[k].message == Messages(y)[k])
  }

  /** Message `n` arrives next and leaves the relay with `after`. */
  lemma Next(crypto: Crypto, pairs: iset<Statement>, y: Story, w: World, n: nat, server: Server, now: nat, m: Message,
             peer: Option<Addr>, random: Option<Token>, after: Server) returns (w': World)
    requires Told(y) && Suits(crypto, y) && n < 6 && Reached(crypto, pairs, y, w, n, server)
    requires m == Messages(y)[n] && now == (if n < 3 then y.connectAt else y.acceptAt)
    requires LeavesWith(crypto, server, now, m, peer, random, after)
    ensures Reached(crypto, pairs, y, w', n + 1, after)
  {
    StoryTyped(y, n);
    w' := Say(crypto, y, pairs, w, now, m, peer, random, n);
    Onward(crypto, pairs, y, w, w', n, server, now, peer, Handle(crypto, server, now, m, peer, random).0, after);
  }

  lemma StoryTyped(y: Story, n: nat)
    requires Told(y) && n < 6
    ensures Typed(Messages(y)[n]) && Carries(Messages(y)[n]) && Messages(y)[n].signature == Mark(n)
  {
  }

  lemma Onward(crypto: Crypto, pairs: iset<Statement>, y: Story, w: World, w': World, n: nat, server: Server, now: nat,
               peer: Option<Addr>, reply: Reply, after: Server)
    requires Told(y) && n < 6 && Reached(crypto, pairs, y, w, n, server) && now == (if n < 3 then y.connectAt else y.acceptAt)
    requires Tale(crypto, pairs, w') && Prepared(y, w', 6) && w'.clock == now && w'.server == after && w'.forwards == w.forwards
    requires w'.record == Hear(w.record, Arrival(Messages(y)[n], peer, now, reply))
    ensures Reached(crypto, pairs, y, w', n + 1, after)
  {
  }

  /** The relay after the first `n` messages. */
  function ServerAt(y: Story, n: nat): Server
    requires Pairing(y.s) && Pairing(y.t) && n <= 6
  {
    if n == 0 then NewServer(0, 1) else if n == 1 then FirstRegistered(y) else if n == 2 then Registered(y)
    else if n == 3 then Offered(y) else if n == 4 then Taken(y) else if n == 5 then Joined(y) else Linked(y)
  }

  function PeerAt(n: nat): Option<Addr> {
    if n == 4 then Some(HERE) else if n == 5 then Some(THERE) else None
  }

  function RandomAt(n: nat): Option<Token> {
    if n == 3 then Some(TOKEN) else None
  }

  function TimeAt(y: Story, n: nat): nat {
    if n < 3 then y.connectAt else y.acceptAt
  }

  lemma StepLeaves(crypto: Crypto, y: Story, n: nat)
    requires Told(y) && Suits(crypto, y) && n < 6
    ensures LeavesWith(crypto, ServerAt(y, n), TimeAt(y, n), Messages(y)[n], PeerAt(n), RandomAt(n), ServerAt(y, n + 1))
  {
    if n == 0 { FirstRegisters(crypto, y); }
    if n == 1 { SecondRegisters(crypto, y); }
    if n == 2 { OfferIsTaken(crypto, y); }
    if n == 3 { AcceptanceIsTaken(crypto, y); }
    if n == 4 { FirstEstablishes(crypto, y); }
    if n == 5 { SecondEstablishes(crypto, y); }
  }

  lemma {:induction false} Tell(crypto: Crypto, pairs: iset<Statement>, y: Story, n: nat) returns (w: World)
    requires Told(y) && Suits(crypto, y) && y.s in pairs && y.t in pairs && n <= 6
    ensures Reached(crypto, pairs, y, w, n, ServerAt(y, n))
  {
    if n == 0 {
      w := SignAll(crypto, y, pairs, 6);
    } else {
      var before := Tell(crypto, pairs, y, n - 1);
      StepLeaves(crypto, y, n - 1);
      w := Next(crypto, pairs, y, before, n - 1, ServerAt(y, n - 1), TimeAt(y, n - 1), Messages(y)[n - 1],
                PeerAt(n - 1), RandomAt(n - 1), ServerAt(y, n));
    }
  }

  /** The packet, once both ends are bound. */
  lemma Conclude(crypto: Crypto, pairs: iset<Statement>, y: Story, linked: World) returns (w: World)
    requires Told(y) && Reached(crypto, pairs, y, linked, 6, Linked(y))
    ensures Tale(crypto, pairs, w) && w.record == linked.record && |w.forwards| == 1 && w.forwards[0].id == y.s.id
  {
    PacketPasses(y);
    var step := PacketStep(y.acceptAt, TOKEN, HERE, 0);
    TaleGoesOn(crypto, pairs, linked, step);
    w := Consent.Apply(crypto, linked, step);
  }

  /** The story to its end: with nothing signed but its six statements, a packet passes. */
  lemma TellStory(crypto: Crypto, pairs: iset<Statement>, y: Story) returns (w: World)
    requires Told(y) && Suits(crypto, y) && y.s in pairs && y.t in pairs
    ensures Tale(crypto, pairs, w) && Ended(y, w)
  {
    var linked := Tell(crypto, pairs, y, 6);
    w := Conclude(crypto, pairs, y, linked);
  }

  /** The record at the end of the story. */
  ghost predicate Ended(y: Story, w: World)
    requires Pairing(y.s) && Pairing(y.t)
  {
    && Prepared(y, w, 6) && |w.forwards| == 1 && w.forwards[0].id == y.s.id
    && |w.record.inbox| == 6 && forall k :: 0 <= k < 6 ==> w.record.inbox[k].message == Messages(y)[k]
  }

  /** Its handshake can only be the one told. */
  lemma EndedHandshake(y: Story, w: World, g: Grant, initiator: DeviceId, target: DeviceId)
    requires Told(y) && Ended(y, w) && Handshake(w.record, g, y.s.id, initiator, target)
    ensures initiator == y.s.device && target == y.t.device && Stamped(w.record, g) == (y.s.timestamp, y.t.timestamp)
  {
    assert w.record.inbox[g.connect].message == Messages(y)[g.connect] == Connect(y);
    assert w.record.inbox[g.accept].message == Messages(y)[g.accept] == Agree(y);
  }

  /** What was signed for its two messages are the two statements told. */
  lemma EndedSigned(y: Story, w: World, g: Grant, opening: Statement, closing: Statement)
    requires Told(y) && Ended(y, w) && SignedFor(w.record, g, opening, closing) && Pairing(opening) && Pairing(closing)
    requires opening.device == y.s.device && closing.device == y.t.device
    ensures opening == y.s && closing == y.t
  {
    SignedIsTold(y, w, opening);
    SignedIsTold(y, w, closing);
  }

  lemma SignedIsTold(y: Story, w: World, x: Statement)
    requires Told(y) && Prepared(y, w, 6) && x in w.record.signed && Pairing(x)
    ensures x == y.s || x == y.t
  {
    assert Statements(y)[..6] == Statements(y);
    var k :| 0 <= k < 6 && Statements(y)[k] == x;
    StatementsSized(y, k);
  }

  /** Hence its packet passed as meant, or mutually, only if the two statements are so. */
  lemma EndedAsMeant(y: Story, w: World)
    requires Told(y) && Ended(y, w) && PassedAsMeant(w.record, w.forwards[0])
    ensures y.s.RequestStatement? && y.t.AcceptStatement?
  {
    var id := y.s.id;
    var g, initiator, target, i, t :|
      Backs(w.record, g, w.forwards[0], initiator, target, i, t) && AsMeant(w.record, g, id, initiator, target);
    EndedHandshake(y, w, g, initiator, target);
    EndedSigned(y, w, g, RequestStatement(id, initiator, target, y.s.timestamp), AcceptStatement(id, target, initiator, y.t.timestamp));
  }

  lemma EndedMutually(y: Story, w: World)
    requires Told(y) && Ended(y, w) && PassedMutually(w.record, w.forwards[0])
    ensures y.s.RequestStatement? <==> y.t.AcceptStatement?
  {
    var id := y.s.id;
    var g, initiator, target, i, t :|
      Backs(w.record, g, w.forwards[0], initiator, target, i, t) && OneOfEach(w.record, g, id, initiator, target);
    EndedHandshake(y, w, g, initiator, target);
    if AsMeant(w.record, g, id, initiator, target) {
      EndedSigned(y, w, g, RequestStatement(id, initiator, target, y.s.timestamp), AcceptStatement(id, target, initiator, y.t.timestamp));
    } else {
      EndedSigned(y, w, g, AcceptStatement(id, initiator, target, y.s.timestamp), RequestStatement(id, target, initiator, y.t.timestamp));
    }
  }

  /** Any two statements that face each other carry a packet from an empty relay, with no other request or
      acceptance ever signed. In particular two requests do, although nobody signed an acceptance. */
  lemma FacingStory(pairs: iset<Statement>, s: Statement, t: Statement) returns (crypto: Crypto, w: World)
    requires Facing(pairs, s, t)
    ensures Tale(crypto, pairs, w) && |w.forwards| == 1
    ensures forall x :: x in w.record.signed && Pairing(x) ==> x == s || x == t
    ensures PassedMutually(w.record, w.forwards[0]) ==> (s.RequestStatement? <==> t.AcceptStatement?)
    ensures PassedAsMeant(w.record, w.forwards[0]) ==> s.RequestStatement? && t.AcceptStatement?
  {
    var y := CanBeTold(s, t);
    crypto := SomeSuits(y);
    w := TellStory(crypto, pairs, y);
    EndedMeans(y, w);
  }

  lemma SomeSuits(y: Story) returns (crypto: Crypto)
    requires Pairing(y.s) && Pairing(y.t)
    ensures Suits(crypto, y)
  {
    crypto := Marks(y);
    MarksSuit(y);
  }

  lemma EndedMeans(y: Story, w: World)
    requires Told(y) && Ended(y, w)
    ensures forall x :: x in w.record.signed && Pairing(x) ==> x == y.s || x == y.t
    ensures PassedMutually(w.record, w.forwards[0]) ==> (y.s.RequestStatement? <==> y.t.AcceptStatement?)
    ensures PassedAsMeant(w.record, w.forwards[0]) ==> y.s.RequestStatement? && y.t.AcceptStatement?
  {
    forall x | x in w.record.signed && Pairing(x) ensures x == y.s || x == y.t { SignedIsTold(y, w, x); }
    if PassedMutually(w.record, w.forwards[0]) { EndedMutually(y, w); }
    if PassedAsMeant(w.record, w.forwards[0]) { EndedAsMeant(y, w); }
  }

  /** Main result: while devices sign the requests and acceptances in `pairs`, every packet in every run has a
      request of one end and an acceptance of the other behind it, if and only if statements in `pairs` that
      face each other are always one request and one acceptance. */
  lemma MutualExactly(pairs: iset<Statement>)
    ensures AlwaysMutual(pairs) <==> forall s, t :: Facing(pairs, s, t) ==> (s.RequestStatement? <==> t.AcceptStatement?)
  {
    if forall s, t :: Facing(pairs, s, t) ==> (s.RequestStatement? <==> t.AcceptStatement?) {
      forall crypto, w, k | Tale(crypto, pairs, w) && 0 <= k < |w.forwards| ensures PassedMutually(w.record, w.forwards[k]) {
        var g, initiator, target, i, t, opening, closing := PacketFaces(crypto, pairs, w, k);
        assert OneOfEach(w.record, g, w.forwards[k].id, initiator, target);
      }
    } else {
      var s, t :| Facing(pairs, s, t) && !(s.RequestStatement? <==> t.AcceptStatement?);
      var crypto, w := FacingStory(pairs, s, t);
    }
  }

  /** And the request is the initiator's and the acceptance the target's, if and only if statements in `pairs` that
      face each other are so: an acceptance must not be able to open a handshake that a request then closes. */
  lemma AsMeantExactly(pairs: iset<Statement>)
    ensures AlwaysAsMeant(pairs) <==> forall s, t :: Facing(pairs, s, t) ==> s.RequestStatement? && t.AcceptStatement?
  {
    if forall s, t :: Facing(pairs, s, t) ==> s.RequestStatement? && t.AcceptStatement? {
      forall crypto, w, k | Tale(crypto, pairs, w) && 0 <= k < |w.forwards| ensures PassedAsMeant(w.record, w.forwards[k]) {
        var g, initiator, target, i, t, opening, closing := PacketFaces(crypto, pairs, w, k);
        assert AsMeant(w.record, g, w.forwards[k].id, initiator, target);
      }
    } else {
      var s, t :| Facing(pairs, s, t) && !(s.RequestStatement? && t.AcceptStatement?);
      var crypto, w := FacingStory(pairs, s, t);
    }
  }

  /** So whenever two devices face each other as meant, the acceptance carries a timestamp more than ten minutes
      after the request's: with less between them their signatures could also be presented the other way round. */
  lemma AsMeantIsTenMinutesLate(pairs: iset<Statement>, s: Statement, t: Statement)
    requires AlwaysAsMeant(pairs) && Facing(pairs, s, t)
    ensures t.timestamp > s.timestamp + 2 * TIMESTAMP_WINDOW_MS
  {
    AsMeantExactly(pairs);
    if t.timestamp <= s.timestamp + 2 * TIMESTAMP_WINDOW_MS {
      assert Facing(pairs, t, s);
    }
  }

  /** Ordinary traffic, one request and its acceptance: always mutual, but always as meant only if the two
      timestamps are too far apart for the same handshake the other way round. */
  lemma OnePairExactly(s: Statement, t: Statement)
    requires s.RequestStatement? && t.AcceptStatement? && WellSized(s) && WellSized(t)
    requires s.id == t.id && s.device == t.peer && s.peer == t.device && s.device != t.device
    ensures AlwaysMutual(iset{s, t})
    ensures AlwaysAsMeant(iset{s, t}) <==> !Close(t.timestamp, s.timestamp)
  {
    var pairs := iset{s, t};
    MutualExactly(pairs);
    AsMeantExactly(pairs);
    if Close(t.timestamp, s.timestamp) { assert Facing(pairs, t, s); }
  }
}
