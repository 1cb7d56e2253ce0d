/** What the relay holds and answers, by the record of messages and replies alone: which intents are pending or
    accepted, who is given the candidates and token of an acceptance, what a poll lists, who is registered and
    under which session number.
 */
module RelayRecord {
  import opened Words
  import opened Forwarding
  import opened Rendezvous
  import opened Relay
  import opened Consent

  // ---------- Intents ----------

  /** The arrival registered the intent. */
  predicate Inviting(a: Arrival, id: IntentId) {
    a.message.ConnectIntent? && a.message.id == id && a.reply.ConnectInvite?
  }

  /** The arrival accepted it. */
  predicate Accepting(a: Arrival, id: IntentId) {
    a.message.AcceptConnect? && a.message.id == id && a.reply.CandidateExchange?
  }

  predicate Event(a: Arrival, id: IntentId) {
    Inviting(a, id) || Accepting(a, id)
  }

  /** Registered at `c` and not registered again or accepted since. */
  ghost predicate OfferedAt(inbox: seq<Arrival>, id: IntentId, c: nat) {
    c < |inbox| && Inviting(inbox[c], id) && forall j :: c < j < |inbox| ==> !Event(inbox[j], id)
  }

  /** Registered at `c`, accepted at `a`, and nothing else since. */
  ghost predicate SettledAt(inbox: seq<Arrival>, id: IntentId, c: nat, a: nat) {
    && c < a < |inbox| && Inviting(inbox[c], id) && Accepting(inbox[a], id)
    && forall j :: c < j < |inbox| && j != a ==> !Event(inbox[j], id)
  }

  /** The intent says what the message that registered it said. */
  predicate AsInvited(a: Arrival, intent: Intent) {
    && a.message.ConnectIntent? && a.message.initiator == intent.initiator && a.message.target == intent.target
    && a.message.candidates == intent.initiatorCandidates
  }

  predicate AsAccepted(a: Arrival, id: IntentId, intent: Intent) {
    && a.message.AcceptConnect? && a.message.acceptor == intent.target && a.message.candidates == intent.targetCandidates
    && intent.state.Accepted? && a.reply == CandidateExchange(id, intent.initiatorCandidates, intent.state.token)
  }

  ghost predicate PendingTold(inbox: seq<Arrival>, id: IntentId, intent: Intent, c: nat) {
    OfferedAt(inbox, id, c) && AsInvited(inbox[c], intent) && intent.state == Pending(inbox[c].at)
  }

  ghost predicate AcceptedTold(inbox: seq<Arrival>, id: IntentId, intent: Intent, c: nat, a: nat) {
    SettledAt(inbox, id, c, a) && AsInvited(inbox[c], intent) && AsAccepted(inbox[a], id, intent)
  }

  /** Every intent is what the record says. */
  ghost predicate Told(inbox: seq<Arrival>, intents: Intents) {
    forall id :: id in intents ==>
      && (intents[id].state.Pending? ==> exists c: nat :: PendingTold(inbox, id, intents[id], c))
      && (intents[id].state.Accepted? ==> exists c: nat, a: nat :: AcceptedTold(inbox, id, intents[id], c, a))
  }

  /** An offer that ran out of time. */
  ghost predicate ExpiredTold(inbox: seq<Arrival>, id: IntentId, c: nat, clock: nat) {
    OfferedAt(inbox, id, c) && TimedOut(inbox[c].at, clock)
  }

  /** And what the record says is there: accepted intents for good, offered ones while they are recent. */
  ghost predicate Kept(inbox: seq<Arrival>, intents: Intents, clock: nat) {
    && (forall id :: id in intents && intents[id].state.Expired? ==> exists c: nat :: ExpiredTold(inbox, id, c, clock))
    && (forall id, c: nat, a: nat :: SettledAt(inbox, id, c, a) ==> id in intents && intents[id].state.Accepted?)
    && (forall id, c: nat :: OfferedAt(inbox, id, c) && Recent(inbox[c].at, clock) ==> id in intents && intents[id].state.Pending?)
  }

  /** What one arrival, or none, may do to an intent that it neither registers nor accepts. */
  predicate Fades(intents: Intents, intents': Intents, id: IntentId, now: nat) {
    && (id in intents' ==>
          && id in intents
          && (intents'[id] == intents[id]
              || (intents[id].state.Pending?
                  && ((intents'[id] == intents[id].(state := Expired) && TimedOut(intents[id].state.createdAt, now))
                      || intents'[id] == intents[id].(targetCandidates := intents'[id].targetCandidates)))))
    && (id in intents && intents[id].state.Accepted? ==> id in intents')
    && (id in intents && intents[id].state.Pending? && Recent(intents[id].state.createdAt, now) ==>
          id in intents' && intents'[id].state.Pending?)
  }

  /** What an arrival does to the intents. */
  ghost predicate Moves(intents: Intents, intents': Intents, a: Arrival) {
    forall id :: Moved(intents, intents', a, id)
  }

  predicate Moved(intents: Intents, intents': Intents, a: Arrival, id: IntentId) {
    if Inviting(a, id) then
      id in intents' && AsInvited(a, intents'[id]) && intents'[id].state == Pending(a.at)
    else if Accepting(a, id) then
      && id in intents && id in intents' && intents[id].state.Pending?
      && AsAccepted(a, id, intents'[id])
      && intents'[id] == intents[id].(targetCandidates := intents'[id].targetCandidates, state := intents'[id].state)
    else Fades(intents, intents', id, a.at)
  }

  lemma ConnectMoves(crypto: Crypto, s: Server, a: Arrival)
    requires a.message.ConnectIntent? && a.reply == HandleConnect(crypto, s, a.at, a.message).0
    ensures Moves(s.intents, HandleConnect(crypto, s, a.at, a.message).1.intents, a)
  {
    ConnectEffect(crypto, s, a.at, a.message);
    var intents' := HandleConnect(crypto, s, a.at, a.message).1.intents;
    forall id ensures Moved(s.intents, intents', a, id) {
    }
  }

  lemma AcceptMoves(crypto: Crypto, s: Server, a: Arrival, random: Option<Token>)
    requires a.message.AcceptConnect? && a.reply == HandleAccept(crypto, s, a.at, a.message, random).0
    ensures Moves(s.intents, HandleAccept(crypto, s, a.at, a.message, random).1.intents, a)
  {
    var m := a.message;
    var intents' := HandleAccept(crypto, s, a.at, m, random).1.intents;
    AcceptReplies(crypto, s, a.at, m, random);
    AcceptOneMeans(s.intents, a.at, m.id, m.acceptor, m.candidates, random);
    forall id ensures Moved(s.intents, intents', a, id) {
    }
  }

  /** The handler does what the registry does, and replies with what it gives. */
  lemma AcceptReplies(crypto: Crypto, s: Server, now: nat, m: Message, random: Option<Token>)
    requires m.AcceptConnect?
    ensures var (reply, s') := HandleAccept(crypto, s, now, m, random);
            var (r, intents) := Accept(s.intents, now, m.id, m.acceptor, m.candidates, random);
            && (reply.CandidateExchange? ==>
                  && r.AcceptOk? && s'.intents == intents && reply == CandidateExchange(m.id, r.candidates, r.token)
                  && random == Some(reply.token))
            && (!reply.CandidateExchange? ==> s'.intents == s.intents || (!r.AcceptOk? && s'.intents == intents))
  {
  }

  lemma AcceptOneMeans(intents: Intents, now: nat, id: IntentId, acceptor: DeviceId, candidates: Candidates, token: Option<Token>)
    ensures var (r, intents') := Accept(intents, now, id, acceptor, candidates, token);
            && (forall other :: other != id && other in intents ==> other in intents' && intents'[other] == intents[other])
            && (forall other :: other in intents' ==> other in intents)
            && (r.AcceptOk? ==>
                  && id in intents && intents[id].state.Pending? && acceptor == intents[id].target
                  && intents'[id] == intents[id].(targetCandidates := candidates, state := Accepted(r.token))
                  && r.candidates == intents[id].initiatorCandidates)
            && (!r.AcceptOk? ==> Fades(intents, intents', id, now))
  {
  }

  lemma OtherMoves(intents: Intents, a: Arrival)
    requires !a.message.ConnectIntent? && !a.message.AcceptConnect?
    ensures Moves(intents, intents, a)
  {
    forall id ensures Moved(intents, intents, a, id) {
    }
  }

  lemma HandleMoves(crypto: Crypto, s: Server, now: nat, m: Message, peer: Option<Addr>, random: Option<Token>)
    ensures var (reply, s') := Handle(crypto, s, now, m, peer, random);
            Moves(s.intents, s'.intents, Arrival(m, peer, now, reply))
  {
    var a := Arrival(m, peer, now, Handle(crypto, s, now, m, peer, random).0);
    match m
    case ConnectIntent(_, _, _, _, _, _) => ConnectMoves(crypto, s, a);
    case AcceptConnect(_, _, _, _, _) => AcceptMoves(crypto, s, a, random);
    case _ => OtherMoves(s.intents, a);
  }

  // ---------- One more arrival ----------

  lemma OfferedMore(inbox: seq<Arrival>, a: Arrival, id: IntentId, c: nat)
    ensures c < |inbox| ==> (OfferedAt(inbox + [a], id, c) <==> OfferedAt(inbox, id, c) && !Event(a, id))
    ensures OfferedAt(inbox + [a], id, |inbox|) <==> Inviting(a, id)
    ensures OfferedAt(inbox + [a], id, c) ==> c <= |inbox|
  {
    var more := inbox + [a];
    if c < |inbox| && OfferedAt(more, id, c) {
      forall j | c < j < |inbox| ensures !Event(inbox[j], id) { assert more[j] == inbox[j]; }
      assert more[|inbox|] == a;
    }
  }

  lemma SettledMore(inbox: seq<Arrival>, a: Arrival, id: IntentId, c: nat, k: nat)
    ensures k < |inbox| ==> (SettledAt(inbox + [a], id, c, k) <==> SettledAt(inbox, id, c, k) && !Event(a, id))
    ensures SettledAt(inbox + [a], id, c, |inbox|) <==> OfferedAt(inbox, id, c) && Accepting(a, id)
    ensures SettledAt(inbox + [a], id, c, k) ==> k <= |inbox|
  {
    var more := inbox + [a];
    if k < |inbox| && SettledAt(more, id, c, k) {
      forall j | c < j < |inbox| && j != k ensures !Event(inbox[j], id) { assert more[j] == inbox[j]; }
      assert more[|inbox|] == a;
    }
    if SettledAt(more, id, c, |inbox|) {
      forall j | c < j < |inbox| ensures !Event(inbox[j], id) { assert more[j] == inbox[j]; }
    }
  }

  lemma {:induction false} ToldMore(inbox: seq<Arrival>, intents: Intents, intents': Intents, a: Arrival, id: IntentId)
    requires Told(inbox, intents) && Moved(intents, intents', a, id) && id in intents'
    ensures intents'[id].state.Pending? ==> exists c: nat :: PendingTold(inbox + [a], id, intents'[id], c)
    ensures intents'[id].state.Accepted? ==> exists c: nat, k: nat :: AcceptedTold(inbox + [a], id, intents'[id], c, k)
  {
    var intent', more := intents'[id], inbox + [a];
    if Inviting(a, id) {
      OfferedMore(inbox, a, id, 0);
      assert PendingTold(more, id, intent', |inbox|);
    } else if Accepting(a, id) {
      var c: nat :| PendingTold(inbox, id, intents[id], c);
      SettledMore(inbox, a, id, c, 0);
      assert AcceptedTold(more, id, intent', c, |inbox|);
    } else if intent'.state.Pending? {
      var c: nat :| PendingTold(inbox, id, intents[id], c);
      OfferedMore(inbox, a, id, c);
      assert PendingTold(more, id, intent', c);
    } else if intent'.state.Accepted? {
      var c: nat, k: nat :| AcceptedTold(inbox, id, intents[id], c, k);
      SettledMore(inbox, a, id, c, k);
      assert AcceptedTold(more, id, intent', c, k);
    }
  }

  lemma RecentEarlier(createdAt: nat, now: nat, later: nat)
    requires now <= later && Recent(createdAt, later)
    ensures Recent(createdAt, now)
  {
  }

  lemma {:induction false} KeptMore(inbox: seq<Arrival>, intents: Intents, intents': Intents, a: Arrival, clock: nat, id: IntentId)
    requires Told(inbox, intents) && Kept(inbox, intents, clock) && clock <= a.at && Moved(intents, intents', a, id)
    ensures forall c: nat, k: nat :: SettledAt(inbox + [a], id, c, k) ==> id in intents' && intents'[id].state.Accepted?
    ensures forall c: nat :: OfferedAt(inbox + [a], id, c) && Recent((inbox + [a])[c].at, a.at) ==>
              id in intents' && intents'[id].state.Pending?
    ensures id in intents' && intents'[id].state.Expired? ==> exists c: nat :: ExpiredTold(inbox + [a], id, c, a.at)
  {
    if id in intents' && intents'[id].state.Expired? { ExpiredMore(inbox, intents, intents', a, clock, id); }
    forall c: nat, k: nat | SettledAt(inbox + [a], id, c, k) ensures id in intents' && intents'[id].state.Accepted? {
      SettledMore(inbox, a, id, c, k);
    }
    forall c: nat | OfferedAt(inbox + [a], id, c) && Recent((inbox + [a])[c].at, a.at)
      ensures id in intents' && intents'[id].state.Pending?
    {
      OfferedMore(inbox, a, id, c);
      if c < |inbox| { StillPending(inbox, intents, clock, id, c, a.at); }
    }
  }

  lemma {:induction false} ExpiredMore(inbox: seq<Arrival>, intents: Intents, intents': Intents, a: Arrival, clock: nat, id: IntentId)
    requires Told(inbox, intents) && Kept(inbox, intents, clock) && clock <= a.at && Moved(intents, intents', a, id)
    requires id in intents' && intents'[id].state.Expired?
    ensures exists c: nat :: ExpiredTold(inbox + [a], id, c, a.at)
  {
    var c := OnceOffered(inbox, intents, clock, id);
    OfferedMore(inbox, a, id, c);
    assert (inbox + [a])[c] == inbox[c];
    assert ExpiredTold(inbox + [a], id, c, a.at);
  }

  /** Behind an intent that is pending or expired is one offer. */
  lemma {:induction false} OnceOffered(inbox: seq<Arrival>, intents: Intents, clock: nat, id: IntentId) returns (c: nat)
    requires Told(inbox, intents) && Kept(inbox, intents, clock)
    requires id in intents && !intents[id].state.Accepted?
    ensures OfferedAt(inbox, id, c)
    ensures intents[id].state.Pending? ==> intents[id].state == Pending(inbox[c].at)
    ensures intents[id].state.Expired? ==> TimedOut(inbox[c].at, clock)
  {
    if intents[id].state.Pending? {
      c :| PendingTold(inbox, id, intents[id], c);
    } else {
      c :| ExpiredTold(inbox, id, c, clock);
    }
  }

  /** An offer that is recent later is pending now, as it was made. */
  lemma {:induction false} StillPending(inbox: seq<Arrival>, intents: Intents, clock: nat, id: IntentId, c: nat, later: nat)
    requires Told(inbox, intents) && Kept(inbox, intents, clock) && clock <= later
    requires OfferedAt(inbox, id, c) && Recent(inbox[c].at, later)
    ensures id in intents && PendingTold(inbox, id, intents[id], c)
  {
    RecentEarlier(inbox[c].at, clock, later);
    var c': nat :| PendingTold(inbox, id, intents[id], c');
    assert Event(inbox[c], id) && Event(inbox[c'], id);
    assert c == c';
  }

  lemma {:induction false} ArrivalKeeps(inbox: seq<Arrival>, intents: Intents, intents': Intents, a: Arrival, clock: nat)
    requires Told(inbox, intents) && Kept(inbox, intents, clock) && clock <= a.at && Moves(intents, intents', a)
    ensures Told(inbox + [a], intents') && Kept(inbox + [a], intents', a.at)
  {
    forall id | id in intents'
      ensures intents'[id].state.Pending? ==> exists c: nat :: PendingTold(inbox + [a], id, intents'[id], c)
      ensures intents'[id].state.Accepted? ==> exists c: nat, k: nat :: AcceptedTold(inbox + [a], id, intents'[id], c, k)
    {
      assert Moved(intents, intents', a, id);
      ToldMore(inbox, intents, intents', a, id);
    }
    forall id
      ensures forall c: nat, k: nat :: SettledAt(inbox + [a], id, c, k) ==> id in intents' && intents'[id].state.Accepted?
      ensures forall c: nat :: OfferedAt(inbox + [a], id, c) && Recent((inbox + [a])[c].at, a.at) ==>
                id in intents' && intents'[id].state.Pending?
      ensures id in intents' && intents'[id].state.Expired? ==> exists c: nat :: ExpiredTold(inbox + [a], id, c, a.at)
    {
      assert Moved(intents, intents', a, id);
      KeptMore(inbox, intents, intents', a, clock, id);
    }
  }

  /** Time passing, and a sweep of the intents. */
  ghost predicate Ages(intents: Intents, intents': Intents, now: nat) {
    && intents'.Keys == intents.Keys
    && forall id :: id in intents ==>
         || intents'[id] == intents[id]
         || (intents[id].state.Pending? && TimedOut(intents[id].state.createdAt, now) && intents'[id].state.Expired?)
  }

  lemma {:induction false} AgedTold(inbox: seq<Arrival>, intents: Intents, intents': Intents, clock: nat, now: nat)
    requires Told(inbox, intents) && Kept(inbox, intents, clock) && clock <= now && Ages(intents, intents', now)
    ensures Told(inbox, intents')
    ensures forall id :: id in intents' && intents'[id].state.Expired? ==> exists c: nat :: ExpiredTold(inbox, id, c, now)
  {
    forall id | id in intents'
      ensures intents'[id].state.Pending? ==> exists c: nat :: PendingTold(inbox, id, intents'[id], c)
      ensures intents'[id].state.Accepted? ==> exists c: nat, k: nat :: AcceptedTold(inbox, id, intents'[id], c, k)
    {
      assert intents'[id].state.Expired? || intents'[id] == intents[id];
    }
    forall id | id in intents' && intents'[id].state.Expired? ensures exists c: nat :: ExpiredTold(inbox, id, c, now) {
      var c := OnceOffered(inbox, intents, clock, id);
      assert ExpiredTold(inbox, id, c, now);
    }
  }

  lemma {:induction false} AgedKept(inbox: seq<Arrival>, intents: Intents, intents': Intents, clock: nat, now: nat)
    requires Told(inbox, intents) && Kept(inbox, intents, clock) && clock <= now && Ages(intents, intents', now)
    ensures forall id, c: nat, a: nat :: SettledAt(inbox, id, c, a) ==> id in intents' && intents'[id].state.Accepted?
    ensures forall id, c: nat :: OfferedAt(inbox, id, c) && Recent(inbox[c].at, now) ==> id in intents' && intents'[id].state.Pending?
  {
    forall id, c: nat | OfferedAt(inbox, id, c) && Recent(inbox[c].at, now) ensures id in intents' && intents'[id].state.Pending? {
      StillPending(inbox, intents, clock, id, c, now);
    }
  }

  lemma {:induction false} AgeKeeps(inbox: seq<Arrival>, intents: Intents, intents': Intents, clock: nat, now: nat)
    requires Told(inbox, intents) && Kept(inbox, intents, clock) && clock <= now && Ages(intents, intents', now)
    ensures Told(inbox, intents') && Kept(inbox, intents', now)
  {
    AgedTold(inbox, intents, intents', clock, now);
    AgedKept(inbox, intents, intents', clock, now);
  }

  ghost predicate Recorded(w: World) {
    Told(w.record.inbox, w.server.intents) && Kept(w.record.inbox, w.server.intents, w.clock)
  }

  lemma {:induction false} StepRecords(crypto: Crypto, w: World, step: Consent.Step)
    requires Recorded(w) && Consent.Enabled(crypto, w, step)
    ensures Recorded(Consent.Apply(crypto, w, step))
  {
    match step
    case MessageStep(now, m, peer, random) =>
      var (reply, s') := Handle(crypto, w.server, now, m, peer, random);
      HandleMoves(crypto, w.server, now, m, peer, random);
      ArrivalKeeps(w.record.inbox, w.server.intents, s'.intents, Arrival(m, peer, now, reply), w.clock);
    case SweepIntentsStep(now) =>
      AgeKeeps(w.record.inbox, w.server.intents, ExpireAll(w.server.intents, now), w.clock, now);
    case _ => AgeKeeps(w.record.inbox, w.server.intents, w.server.intents, w.clock, step.now);
  }

  lemma {:induction false} RunRecords(crypto: Crypto, states: seq<World>, steps: seq<Consent.Step>, n: nat)
    requires Consent.Run(crypto, states, steps) && n <= |steps|
    ensures Recorded(states[n])
  {
    if n > 0 {
      RunRecords(crypto, states, steps, n - 1);
      StepRecords(crypto, states[n - 1], steps[n - 1]);
    }
  }

  // ---------- Who is given the candidates and the token ----------

  /** A get request is answered exactly for a registered device that is the initiator of the accepted intent. */
  lemma GetExactly(s: Server, m: Message)
    requires m.GetCandidates?
    ensures var r := HandleGet(s, m);
            && (r.CandidateExchange? <==>
                  && |m.id| == INTENT_ID_BYTES && m.requester in s.clients
                  && m.id in s.intents && s.intents[m.id].state.Accepted? && s.intents[m.id].initiator == m.requester)
            && (r.CandidateExchange? ==>
                  r == CandidateExchange(m.id, s.intents[m.id].targetCandidates, s.intents[m.id].state.token))
  {
  }

  lemma {:induction false} SettledOnce(inbox: seq<Arrival>, id: IntentId, c: nat, a: nat, c': nat, a': nat)
    requires SettledAt(inbox, id, c, a) && SettledAt(inbox, id, c', a')
    ensures c == c' && a == a'
  {
    assert Event(inbox[c], id) && Event(inbox[c'], id) && Event(inbox[a], id) && Event(inbox[a'], id);
  }

  /** Main result: over every run, candidates and token of an intent are released to a registered device exactly if its
      message registered the intent last and it was accepted since, and they are those of that acceptance. */
  lemma {:induction false} ReleasedExactly(crypto: Crypto, states: seq<World>, steps: seq<Consent.Step>, n: nat,
                                           requester: DeviceId, id: IntentId)
    requires Consent.Run(crypto, states, steps) && n <= |steps|
    ensures var inbox := states[n].record.inbox;
            var r := HandleGet(states[n].server, GetCandidates(requester, id));
            && (r.CandidateExchange? <==>
                  && |id| == INTENT_ID_BYTES && requester in states[n].server.clients
                  && exists c: nat, a: nat :: SettledAt(inbox, id, c, a) && inbox[c].message.initiator == requester)
            && (forall c: nat, a: nat :: r.CandidateExchange? && SettledAt(inbox, id, c, a) ==>
                  r == CandidateExchange(id, inbox[a].message.candidates, inbox[a].reply.token))
  {
    RunRecords(crypto, states, steps, n);
    var inbox, s := states[n].record.inbox, states[n].server;
    GetExactly(s, GetCandidates(requester, id));
    if id in s.intents && s.intents[id].state.Accepted? {
      var c: nat, a: nat :| AcceptedTold(inbox, id, s.intents[id], c, a);
      forall c': nat, a': nat | SettledAt(inbox, id, c', a') ensures c' == c && a' == a { SettledOnce(inbox, id, c, a, c', a'); }
    }
  }

  ghost predicate AllAsked(rec: Record) {
    forall c: nat, id :: c < |rec.inbox| && Inviting(rec.inbox[c], id) ==>
      Asked(rec, c, id, rec.inbox[c].message.initiator, rec.inbox[c].message.target)
  }

  /** And whoever registers an intent has vouched for it. */
  lemma {:induction false} InvitedIsAsked(crypto: Crypto, states: seq<World>, steps: seq<Consent.Step>, n: nat)
    requires Consent.Run(crypto, states, steps) && n <= |steps|
    ensures AllAsked(states[n].record)
  {
    if n > 0 {
      InvitedIsAsked(crypto, states, steps, n - 1);
      RunKeeps(crypto, states, steps, n - 1);
      AskedStep(crypto, states[n - 1], steps[n - 1]);
    }
  }

  lemma {:induction false} AskedStep(crypto: Crypto, w: World, step: Consent.Step)
    requires Inv(crypto, w) && Consent.Enabled(crypto, w, step) && AllAsked(w.record)
    ensures AllAsked(Consent.Apply(crypto, w, step).record)
  {
    var rec := Consent.Apply(crypto, w, step).record;
    RecordGrows(crypto, w, step);
    AskedStays(w.record, rec);
    if step.MessageStep? && step.message.ConnectIntent? && HandleConnect(crypto, w.server, step.now, step.message).0.ConnectInvite? {
      NewestIsAsked(crypto, w, step);
    }
  }

  lemma {:induction false} AskedStays(rec: Record, rec': Record)
    requires AllAsked(rec) && Longer(rec, rec')
    ensures forall c: nat, id :: c < |rec.inbox| && Inviting(rec'.inbox[c], id) ==>
              Asked(rec', c, id, rec'.inbox[c].message.initiator, rec'.inbox[c].message.target)
  {
    forall c: nat, id | c < |rec.inbox| && Inviting(rec'.inbox[c], id)
      ensures Asked(rec', c, id, rec'.inbox[c].message.initiator, rec'.inbox[c].message.target)
    {
      assert rec'.inbox[c] == rec.inbox[c];
      HandshakeStays(rec, rec', Grant(c, 0, 0, 0), id, rec.inbox[c].message.initiator, rec.inbox[c].message.target);
    }
  }

  lemma RecordGrows(crypto: Crypto, w: World, step: Consent.Step)
    ensures var rec := Consent.Apply(crypto, w, step).record;
            Longer(w.record, rec) && |rec.inbox| == |w.record.inbox| + if step.MessageStep? then 1 else 0
  {
  }

  lemma NewestIsAsked(crypto: Crypto, w: World, step: Consent.Step)
    requires Inv(crypto, w) && Consent.Enabled(crypto, w, step) && step.MessageStep? && step.message.ConnectIntent?
    requires HandleConnect(crypto, w.server, step.now, step.message).0.ConnectInvite?
    ensures Asked(Consent.Apply(crypto, w, step).record, |w.record.inbox|, step.message.id, step.message.initiator, step.message.target)
  {
    var a := Arrival(step.message, step.peer, step.now, HandleConnect(crypto, w.server, step.now, step.message).0);
    ConnectAsks(crypto, w, Hear(w.record, a), a, |w.record.inbox|);
  }

  // ---------- What a poll lists ----------

  /** Main result: over every run a poll by a registered device lists exactly the intents registered for it less than 30 s
      ago and neither registered again nor accepted since, each with the device that registered it. */
  lemma {:induction false} PollExactly(crypto: Crypto, states: seq<World>, steps: seq<Consent.Step>, n: nat,
                                       device: DeviceId, now: nat, id: IntentId, initiator: DeviceId)
    requires Consent.Run(crypto, states, steps) && n <= |steps| && states[n].clock <= now
    ensures var inbox := states[n].record.inbox;
            var r := HandlePoll(states[n].server, now, device);
            && (r.PendingIntents? <==> device in states[n].server.clients)
            && (r.PendingIntents? ==>
                  ((id, initiator) in r.intents <==>
                     exists c: nat :: && OfferedAt(inbox, id, c) && Recent(inbox[c].at, now)
                                 && inbox[c].message.target == device && inbox[c].message.initiator == initiator))
  {
    RunRecords(crypto, states, steps, n);
    var inbox, s := states[n].record.inbox, states[n].server;
    if Listed(s.intents, now, id, device) {
      var c: nat :| PendingTold(inbox, id, s.intents[id], c);
    }
    forall c: nat | OfferedAt(inbox, id, c) && Recent(inbox[c].at, now) ensures id in s.intents && PendingTold(inbox, id, s.intents[id], c) {
      StillPending(inbox, s.intents, states[n].clock, id, c, now);
    }
  }

  /** Over every run a sweep leaves pending only intents registered at most 30 s ago, and marks expired only ones
      registered longer ago; accepted ones it leaves alone. */
  lemma {:induction false} SweptExactly(crypto: Crypto, states: seq<World>, steps: seq<Consent.Step>, n: nat, now: nat, id: IntentId)
    requires Consent.Run(crypto, states, steps) && n <= |steps| && states[n].clock <= now && id in states[n].server.intents
    ensures var inbox, was, swept := states[n].record.inbox, states[n].server.intents, ExpireAll(states[n].server.intents, now);
            && id in swept
            && (was[id].state.Accepted? ==> swept[id] == was[id])
            && (!was[id].state.Accepted? ==>
                  exists c: nat :: && OfferedAt(inbox, id, c)
                                   && (swept[id].state.Expired? <==> now - inbox[c].at > INTENT_TIMEOUT_MS)
                                   && (swept[id].state.Pending? <==> now - inbox[c].at <= INTENT_TIMEOUT_MS))
  {
    RunRecords(crypto, states, steps, n);
    var inbox, was := states[n].record.inbox, states[n].server.intents;
    if !was[id].state.Accepted? {
      var c := OnceOffered(inbox, was, states[n].clock, id);
      InboxInTime(crypto, states, steps, n);
      assert OfferedAt(inbox, id, c);
    }
  }

  lemma {:induction false} InboxInTime(crypto: Crypto, states: seq<World>, steps: seq<Consent.Step>, n: nat)
    requires Consent.Run(crypto, states, steps) && n <= |steps|
    ensures forall k :: 0 <= k < |states[n].record.inbox| ==> states[n].record.inbox[k].at <= states[n].clock
  {
    if n > 0 {
      InboxInTime(crypto, states, steps, n - 1);
      TimeStep(crypto, states[n - 1], steps[n - 1]);
    }
  }

  lemma TimeStep(crypto: Crypto, w: World, step: Consent.Step)
    requires w.clock <= step.now && forall k :: 0 <= k < |w.record.inbox| ==> w.record.inbox[k].at <= w.clock
    ensures var w' := Consent.Apply(crypto, w, step);
            forall k :: 0 <= k < |w'.record.inbox| ==> w'.record.inbox[k].at <= w'.clock
  {
  }

  // ---------- Which requests register an intent ----------

  /** Everything asked of a connect request besides room and a free id. */
  predicate ProperRequest(crypto: Crypto, s: Server, now: nat, m: Message)
    requires m.ConnectIntent?
  {
    && InWindow(now, m.timestamp) && |m.id| == INTENT_ID_BYTES && |m.signature| == SIGNATURE_BYTES
    && m.initiator in s.clients && m.target in s.clients && crypto.validKey(s.clients[m.initiator].key)
    && Signs(crypto, s.clients[m.initiator].key, RequestStatement(m.id, m.initiator, m.target, m.timestamp), m.signature)
  }

  lemma ConnectExactly(crypto: Crypto, s: Server, now: nat, m: Message)
    requires m.ConnectIntent?
    ensures HandleConnect(crypto, s, now, m).0.ConnectInvite? <==>
              && ProperRequest(crypto, s, now, m)
              && Register(s.intents, now, m.id, m.initiator, m.target, m.candidates).0.Registered?
  {
  }

  /** Main result: over every run a proper request registers its intent exactly when fewer than 2048 intents are spent or
      recent and no message registered that id less than 30 s ago without its being accepted since. */
  lemma {:induction false} InvitedExactly(crypto: Crypto, states: seq<World>, steps: seq<Consent.Step>, n: nat, now: nat, m: Message)
    requires Consent.Run(crypto, states, steps) && n <= |steps| && states[n].clock <= now && m.ConnectIntent?
    ensures var s, inbox := states[n].server, states[n].record.inbox;
            HandleConnect(crypto, s, now, m).0.ConnectInvite? <==>
              && ProperRequest(crypto, s, now, m)
              && |Spent(s.intents)| + |Waiters(s.intents, now)| < MAX_INTENTS
              && !exists c: nat :: OfferedAt(inbox, m.id, c) && Recent(inbox[c].at, now)
  {
    RunRecords(crypto, states, steps, n);
    var s, inbox := states[n].server, states[n].record.inbox;
    ConnectExactly(crypto, s, now, m);
    RegisteredExactly(s.intents, now, m.id, m.initiator, m.target, m.candidates);
    WaitingExactly(inbox, s.intents, states[n].clock, now, m.id);
  }

  lemma {:induction false} WaitingExactly(inbox: seq<Arrival>, intents: Intents, clock: nat, now: nat, id: IntentId)
    requires Told(inbox, intents) && Kept(inbox, intents, clock) && clock <= now
    ensures id in Waiters(intents, now) <==> exists c: nat :: OfferedAt(inbox, id, c) && Recent(inbox[c].at, now)
  {
    if id in Waiters(intents, now) {
      var c: nat :| PendingTold(inbox, id, intents[id], c);
    }
    forall c: nat | OfferedAt(inbox, id, c) && Recent(inbox[c].at, now) ensures id in Waiters(intents, now) {
      StillPending(inbox, intents, clock, id, c, now);
    }
  }
}
