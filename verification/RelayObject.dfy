/** The relay server object over its registry map, rendezvous registry and forwarding table. */
module RelayObject {
  import opened Words
  import opened Forwarding
  import opened ForwardingObject
  import opened Rendezvous
  import opened RendezvousObject
  import opened Relay

  class RelayServer {
    var registry: map<DeviceId, Client>
    var nextSessionId: nat
    const rendezvous: RendezvousRegistry
    const forwarding: ForwardingTable
    const crypto: Crypto

    ghost function Value(): Server
      reads this, rendezvous, forwarding
    {
      Server(registry, nextSessionId, rendezvous.intents, forwarding.Value())
    }

    constructor (crypto: Crypto, rate: nat, sessionExpiry: nat)
      ensures Value() == NewServer(rate, sessionExpiry) && this.crypto == crypto
      ensures fresh(rendezvous) && fresh(forwarding)
    {
      registry, nextSessionId := map[], 1;
      rendezvous := new RendezvousRegistry();
      forwarding := new ForwardingTable(rate, sessionExpiry);
      this.crypto := crypto;
    }

    method HandleMessageFrom(now: nat, m: Message, peer: Option<Addr>, random: Option<Token>) returns (r: Reply)
      modifies this, rendezvous, forwarding
      ensures (r, Value()) == Handle(crypto, old(Value()), now, m, peer, random)
    {
      match m {
        case RegisterRequest(_, _, _, _) => r := RegisterDevice(now, m, peer);
        case DiscoverRequest(target) => r := DiscoverResponse(target, target in registry);
        case ConnectIntent(_, _, _, _, _, _) => r := OpenIntent(now, m);
        case AcceptConnect(_, _, _, _, _) => r := AcceptOffer(now, m, random);
        case GetCandidates(_, _) => r := ReleaseCandidates(m);
        case EstablishRequest(_, _, _, _) => r := EstablishRelay(now, m, peer);
        case PollPending(device) =>
          r := AnswerPoll(now, device);
        case OtherMessage => r := Refused(NotForServer);
      }
    }

    method RegisterDevice(now: nat, m: Message, peer: Option<Addr>) returns (r: Reply)
      requires m.RegisterRequest?
      modifies this`registry, this`nextSessionId
      ensures (r, Value()) == HandleRegister(crypto, old(Value()), now, m, peer)
    {
      if !InWindow(now, m.timestamp) { return Refused(TimestampOutOfBounds); }
      if !crypto.validKey(m.key) { return Refused(InvalidKey); }
      if crypto.deviceOf(m.key) != m.device { return Refused(IdentityMismatch); }
      if |m.signature| != SIGNATURE_BYTES { return Refused(SignatureLength); }
      if !Signs(crypto, m.key, RegisterStatement(m.device, m.key, m.timestamp), m.signature) {
        return Refused(SignatureInvalid);
      }
      var session := nextSessionId;
      nextSessionId := (nextSessionId + 1) % U64;
      if |registry| >= MAX_REGISTRATIONS {
        EvictStaleClients(now);
        if |registry| >= MAX_REGISTRATIONS { return Refused(RegistryFull); }
      }
      registry := registry[m.device := Client(session, now, m.key, peer)];
      r := RegisterAck(session, peer);
    }

    method EvictStaleClients(now: nat)
      modifies this`registry
      ensures registry == map d | d in old(registry) && old(registry)[d].lastSeen > SaturatingSub(now, STALE_REGISTRATION_MS)
                              :: old(registry)[d]
    {
      var staleBefore := SaturatingSub(now, STALE_REGISTRATION_MS);
      ghost var was := registry;
      var left := registry.Keys;
      while left != {}
        invariant left <= was.Keys
        invariant forall d :: d in registry <==> d in was && (d in left || was[d].lastSeen > staleBefore)
        invariant forall d :: d in registry ==> registry[d] == was[d]
        decreases left
      {
        var d :| d in left;
        if registry[d].lastSeen <= staleBefore {
          registry := registry - {d};
        }
        left := left - {d};
      }
    }

    method OpenIntent(now: nat, m: Message) returns (r: Reply)
      requires m.ConnectIntent?
      modifies rendezvous
      ensures (r, Value()) == HandleConnect(crypto, old(Value()), now, m)
    {
      if !InWindow(now, m.timestamp) { return Refused(TimestampOutOfBounds); }
      var key, error := VerifyKeyFor(m.initiator);
      if key.None? { return Refused(error); }
      if m.target !in registry { return ConnectRejected(m.target); }
      if |m.id| != INTENT_ID_BYTES { return Refused(IntentIdLength); }
      if |m.signature| != SIGNATURE_BYTES { return Refused(SignatureLength); }
      if !Signs(crypto, key.value, RequestStatement(m.id, m.initiator, m.target, m.timestamp), m.signature) {
        return Refused(SignatureInvalid);
      }
      var registered := rendezvous.RegisterIntent(now, m.id, m.initiator, m.target, m.candidates);
      if registered != Registered { return Refused(RegisterFailed(registered)); }
      r := ConnectInvite(m.initiator, m.id);
    }

    method VerifyKeyFor(device: DeviceId) returns (key: Option<Key>, error: RelayError)
      ensures (key, error) == KeyFor(crypto, Value(), device)
    {
      error := NotFound;
      if device !in registry { return None, error; }
      key := Some(registry[device].key);
      if !crypto.validKey(key.value) { return None, StoredKeyInvalid; }
    }

    method AcceptOffer(now: nat, m: Message, random: Option<Token>) returns (r: Reply)
      requires m.AcceptConnect?
      modifies rendezvous, forwarding
      ensures (r, Value()) == HandleAccept(crypto, old(Value()), now, m, random)
    {
      if !InWindow(now, m.timestamp) { return Refused(TimestampOutOfBounds); }
      var key, error := VerifyKeyFor(m.acceptor);
      if key.None? { return Refused(error); }
      if |m.id| != INTENT_ID_BYTES { return Refused(IntentIdLength); }
      if m.id !in rendezvous.intents { return Refused(AcceptFailed(AcceptUnknown)); }
      var initiator := rendezvous.intents[m.id].initiator;
      if |m.signature| != SIGNATURE_BYTES { return Refused(SignatureLength); }
      if !Signs(crypto, key.value, AcceptStatement(m.id, m.acceptor, initiator, m.timestamp), m.signature) {
        return Refused(SignatureInvalid);
      }
      var accepted := rendezvous.AcceptIntent(now, m.id, m.acceptor, m.candidates, random);
      if !accepted.AcceptOk? { return Refused(AcceptFailed(accepted)); }
      forwarding.AuthorizePair(now, m.id, accepted.token, accepted.initiator, m.acceptor);
      r := CandidateExchange(m.id, accepted.candidates, accepted.token);
    }

    method ReleaseCandidates(m: Message) returns (r: Reply)
      requires m.GetCandidates?
      ensures r == HandleGet(Value(), m)
    {
      if |m.id| != INTENT_ID_BYTES { return Refused(IntentIdLength); }
      if m.requester !in registry { return Refused(NotRegistered); }
      var got := rendezvous.GetTargetCandidates(m.id, m.requester);
      if !got.Candidates? { return Refused(GetFailed(got)); }
      r := CandidateExchange(m.id, got.candidates, got.token);
    }

    method EstablishRelay(now: nat, m: Message, peer: Option<Addr>) returns (r: Reply)
      requires m.EstablishRequest?
      modifies forwarding
      ensures (r, Value()) == HandleEstablish(crypto, old(Value()), now, m, peer)
    {
      if !InWindow(now, m.timestamp) { return Refused(TimestampOutOfBounds); }
      if |m.id| != INTENT_ID_BYTES { return Refused(IntentIdLength); }
      if |m.signature| != SIGNATURE_BYTES { return Refused(SignatureLength); }
      var key, error := VerifyKeyFor(m.device);
      if key.None? { return Refused(error); }
      if !Signs(crypto, key.value, EstablishStatement(m.id, m.device, m.timestamp), m.signature) {
        return Refused(SignatureInvalid);
      }
      if peer.None? { return Refused(NoPeerAddress); }
      var bound := forwarding.UpdateBinding(now, m.id, m.device, peer.value);
      if bound != Bound { return Refused(BindFailed(bound)); }
      r := EstablishAck(m.id);
    }

    method AnswerPoll(now: nat, device: DeviceId) returns (r: Reply)
      ensures r == HandlePoll(Value(), now, device)
    {
      var pending := PollPendingIntents(now, device);
      if pending.None? { return Refused(NotRegistered); }
      var intents := set p | p in pending.value;
      ghost var listed := set id | id in rendezvous.intents && Listed(rendezvous.intents, now, id, device)
                              :: (id, rendezvous.intents[id].initiator);
      assert forall p :: p in intents ==> p.0 in rendezvous.intents && p == (p.0, rendezvous.intents[p.0].initiator) && p in listed;
      assert intents == listed;
      r := PendingIntents(intents);
    }

    /** The pending intents a registered device may accept; `None` for one that is not registered. */
    method PollPendingIntents(now: nat, device: DeviceId) returns (r: Option<seq<(IntentId, DeviceId)>>)
      ensures r.Some? <==> device in registry
      ensures r.Some? ==> forall p :: p in r.value <==>
                Listed(rendezvous.intents, now, p.0, device) && p.1 == rendezvous.intents[p.0].initiator
    {
      if device !in registry { return None; }
      var pending := rendezvous.PendingFor(now, device);
      r := Some(pending);
    }
  }
}
