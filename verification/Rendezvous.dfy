/** The relay's rendezvous registry: connect intents from registration to acceptance or expiry. */
module Rendezvous {
  import opened Words
  import opened Forwarding

  const INTENT_TIMEOUT_MS: nat := 30_000
  const MAX_INTENTS: nat := 2048

  type Candidates = seq<Bytes>

  datatype IntentState = Pending(createdAt: nat) | Accepted(token: Token) | Expired

  datatype Intent = Intent(
    initiator: DeviceId, target: DeviceId, initiatorCandidates: Candidates, targetCandidates: Candidates,
    state: IntentState)

  type Intents = map<IntentId, Intent>

  datatype RegisterResult = Registered | AtCapacity | Duplicate

  datatype AcceptResult =
    | AcceptOk(initiator: DeviceId, candidates: Candidates, token: Token)
    | AcceptUnknown | AcceptTooLate | AlreadyAccepted | WrongAcceptor | NoRandomness

  datatype GetResult =
    | Candidates(candidates: Candidates, token: Token)
    | GetUnknown | NotYetAccepted | GetExpired | NotTheInitiator

  /** Young enough for a registration to keep and for a poll to list. */
  predicate Recent(createdAt: nat, now: nat) {
    createdAt > SaturatingSub(now, INTENT_TIMEOUT_MS)
  }

  /** Old enough to expire. */
  predicate TimedOut(createdAt: nat, now: nat) {
    SaturatingSub(now, createdAt) > INTENT_TIMEOUT_MS
  }

  function Retained(intents: Intents, now: nat): Intents {
    map id | id in intents && (intents[id].state.Pending? ==> Recent(intents[id].state.createdAt, now)) :: intents[id]
  }

  function Register(intents: Intents, now: nat, id: IntentId, initiator: DeviceId, target: DeviceId, candidates: Candidates)
    : (RegisterResult, Intents)
  {
    var kept := Retained(intents, now);
    if |kept| >= MAX_INTENTS then (AtCapacity, kept)
    else if id in kept && kept[id].state.Pending? then (Duplicate, kept)
    else (Registered, kept[id := Intent(initiator, target, candidates, [], Pending(now))])
  }

  /** `token` is what the random generator yields, `None` when it fails. */
  function AcceptOne(intent: Intent, now: nat, acceptor: DeviceId, candidates: Candidates, token: Option<Token>)
    : (AcceptResult, Intent)
  {
    match intent.state
    case Accepted(_) => (AlreadyAccepted, intent)
    case Expired => (AcceptTooLate, intent)
    case Pending(createdAt) =>
      if TimedOut(createdAt, now) then (AcceptTooLate, intent.(state := Expired))
      else if intent.target != acceptor then (WrongAcceptor, intent)
      else
        var updated := intent.(targetCandidates := candidates);
        match token
        case None => (NoRandomness, updated)
        case Some(t) => (AcceptOk(intent.initiator, intent.initiatorCandidates, t), updated.(state := Accepted(t)))
  }

  function Accept(intents: Intents, now: nat, id: IntentId, acceptor: DeviceId, candidates: Candidates, token: Option<Token>)
    : (AcceptResult, Intents)
  {
    if id !in intents then (AcceptUnknown, intents)
    else
      var (r, intent) := AcceptOne(intents[id], now, acceptor, candidates, token);
      (r, intents[id := intent])
  }

  function GetTarget(intents: Intents, id: IntentId, requester: DeviceId): GetResult {
    if id !in intents then GetUnknown
    else match intents[id].state
         case Pending(_) => NotYetAccepted
         case Expired => GetExpired
         case Accepted(token) =>
           if intents[id].initiator != requester then NotTheInitiator
           else GetResult.Candidates(intents[id].targetCandidates, token)
  }

  predicate Expiring(intent: Intent, now: nat) {
    intent.state.Pending? && TimedOut(intent.state.createdAt, now)
  }

  function ExpireOne(intent: Intent, now: nat): Intent {
    if Expiring(intent, now) then intent.(state := Expired) else intent
  }

  function ExpireAll(intents: Intents, now: nat): Intents {
    map id | id in intents :: ExpireOne(intents[id], now)
  }

  predicate Listed(intents: Intents, now: nat, id: IntentId, target: DeviceId) {
    && id in intents
    && intents[id].target == target
    && intents[id].state.Pending?
    && Recent(intents[id].state.createdAt, now)
  }

  // ---------- Runs ----------

  datatype Step =
    | RegisterStep(now: nat, id: IntentId, initiator: DeviceId, target: DeviceId, candidates: Candidates)
    | AcceptStep(now: nat, id: IntentId, acceptor: DeviceId, candidates: Candidates, token: Option<Token>)
    | ExpireStep(now: nat)

  function Apply(intents: Intents, step: Step): Intents {
    match step
    case RegisterStep(now, id, initiator, target, candidates) => Register(intents, now, id, initiator, target, candidates).1
    case AcceptStep(now, id, acceptor, candidates, token) => Accept(intents, now, id, acceptor, candidates, token).1
    case ExpireStep(now) => ExpireAll(intents, now)
  }

  /** Any registry to start from; the clock never goes back. */
  predicate Run(states: seq<Intents>, steps: seq<Step>) {
    && |states| == |steps| + 1
    && (forall k :: 0 <= k < |steps| ==> states[k + 1] == Apply(states[k], steps[k]))
    && (forall i, j :: 0 <= i < j < |steps| ==> steps[i].now <= steps[j].now)
  }

  predicate Accepts(intents: Intents, step: Step, id: IntentId) {
    && step.AcceptStep? && step.id == id
    && Accept(intents, step.now, id, step.acceptor, step.candidates, step.token).0.AcceptOk?
  }

  predicate Registers(intents: Intents, step: Step, id: IntentId) {
    && step.RegisterStep? && step.id == id
    && Register(intents, step.now, id, step.initiator, step.target, step.candidates).0.Registered?
  }

  /** Still pending as it was registered; only the candidates offered by a failed acceptance may differ. */
  predicate Waiting(intents: Intents, id: IntentId, was: Intent) {
    id in intents && intents[id].(targetCandidates := []) == was.(targetCandidates := [])
  }

  lemma WaitingStep(intents: Intents, step: Step, id: IntentId, was: Intent)
    requires Waiting(intents, id, was) && was.state.Pending?
    requires 0 < was.state.createdAt && step.now < was.state.createdAt + INTENT_TIMEOUT_MS
    requires !Accepts(intents, step, id)
    ensures Waiting(Apply(intents, step), id, was)
  {
  }

  lemma {:induction false} ListedStays(states: seq<Intents>, steps: seq<Step>, n: nat, id: IntentId)
    requires Run(states, steps) && n <= |steps| && id in states[0] && states[0][id].state.Pending?
    requires 0 < states[0][id].state.createdAt
    requires forall k :: 0 <= k < n ==>
               steps[k].now < states[0][id].state.createdAt + INTENT_TIMEOUT_MS && !Accepts(states[k], steps[k], id)
    ensures Waiting(states[n], id, states[0][id])
  {
    if n > 0 {
      ListedStays(states, steps, n - 1, id);
      WaitingStep(states[n - 1], steps[n - 1], id, states[0][id]);
    }
  }

  /** Main result: an intent listed for its target can be accepted by that target, who then meets the same
      initiator, at any age up to 30 s, whatever registrations, sweeps and acceptance attempts came in
      between while it was younger than 30 s and not yet accepted. Before its time is up it is also still listed. */
  lemma ListedIsAcceptable(states: seq<Intents>, steps: seq<Step>, polledAt: nat, id: IntentId, target: DeviceId,
                           now: nat, candidates: Candidates, token: Token)
    requires Run(states, steps) && Listed(states[0], polledAt, id, target)
    requires forall k :: 0 <= k < |steps| ==>
               steps[k].now < states[0][id].state.createdAt + INTENT_TIMEOUT_MS && !Accepts(states[k], steps[k], id)
    requires now <= states[0][id].state.createdAt + INTENT_TIMEOUT_MS
    ensures var was, end := states[0][id], states[|steps|];
            && Accept(end, now, id, target, candidates, Some(token)).0
               == AcceptOk(was.initiator, was.initiatorCandidates, token)
            && (now < was.state.createdAt + INTENT_TIMEOUT_MS ==> Listed(end, now, id, target))
  {
    ListedStays(states, steps, |steps|, id);
  }

  lemma {:induction false} AcceptedStays(states: seq<Intents>, steps: seq<Step>, i: nat, j: nat, id: IntentId)
    requires Run(states, steps) && i <= j <= |steps| && id in states[i] && states[i][id].state.Accepted?
    requires forall k :: i <= k < j ==> !Registers(states[k], steps[k], id)
    ensures id in states[j] && states[j][id] == states[i][id]
  {
    if i < j { AcceptedStays(states, steps, i, j - 1, id); }
  }

  /** Main result: until the identifier is registered anew, an accepted intent is never accepted again, and
      its initiator, and nobody else, is given the acceptor's candidates and the token of that acceptance. */
  lemma AcceptedOnce(states: seq<Intents>, steps: seq<Step>, i: nat, j: nat, id: IntentId, requester: DeviceId)
    requires Run(states, steps) && i < j <= |steps| && Accepts(states[i], steps[i], id)
    requires forall k :: i < k < j ==> !Registers(states[k], steps[k], id)
    ensures j < |steps| ==> !Accepts(states[j], steps[j], id)
    ensures var got := Accept(states[i], steps[i].now, id, steps[i].acceptor, steps[i].candidates, steps[i].token).0;
            GetTarget(states[j], id, requester) ==
              if requester == got.initiator then GetResult.Candidates(steps[i].candidates, got.token) else NotTheInitiator
  {
    AcceptedStays(states, steps, i + 1, j, id);
  }

  // ---------- When the registry is full ----------

  /** Accepted or expired; these are never dropped. */
  function Spent(intents: Intents): set<IntentId> {
    set id | id in intents && !intents[id].state.Pending?
  }

  /** Pending and recent. */
  function Waiters(intents: Intents, now: nat): set<IntentId> {
    set id | id in intents && intents[id].state.Pending? && Recent(intents[id].state.createdAt, now)
  }

  /** A registration is turned away for lack of room exactly when the spent intents and the recent ones make up the
      limit, and as a duplicate exactly when there is room and its own is recent. */
  lemma RegisteredExactly(intents: Intents, now: nat, id: IntentId, initiator: DeviceId, target: DeviceId, candidates: Candidates)
    ensures var r := Register(intents, now, id, initiator, target, candidates).0;
            var full := |Spent(intents)| + |Waiters(intents, now)| >= MAX_INTENTS;
            && (r.AtCapacity? <==> full)
            && (r.Duplicate? <==> !full && id in Waiters(intents, now))
  {
    var kept := Retained(intents, now);
    assert kept.Keys == Spent(intents) + Waiters(intents, now);
    assert Spent(intents) !! Waiters(intents, now);
  }

  lemma {:induction false} NoFewer<T>(a: set<T>, b: set<T>)
    requires a <= b
    ensures |a| <= |b|
  {
    assert b == a + (b - a);
  }

  lemma SpentStep(intents: Intents, step: Step)
    requires |Spent(intents)| >= MAX_INTENTS
    ensures Spent(intents) <= Spent(Apply(intents, step))
  {
    if step.RegisterStep? { RegisteredExactly(intents, step.now, step.id, step.initiator, step.target, step.candidates); }
  }

  /** Main result: once 2048 intents are spent no intent is ever registered again, whatever is accepted or swept. */
  lemma {:induction false} FullForEver(states: seq<Intents>, steps: seq<Step>, n: nat, now: nat, id: IntentId,
                                       initiator: DeviceId, target: DeviceId, candidates: Candidates)
    requires Run(states, steps) && n <= |steps| && |Spent(states[0])| >= MAX_INTENTS
    ensures Spent(states[0]) <= Spent(states[n])
    ensures Register(states[n], now, id, initiator, target, candidates).0 == AtCapacity
  {
    if n > 0 {
      FullForEver(states, steps, n - 1, now, id, initiator, target, candidates);
      NoFewer(Spent(states[0]), Spent(states[n - 1]));
      SpentStep(states[n - 1], steps[n - 1]);
    }
    NoFewer(Spent(states[0]), Spent(states[n]));
    RegisteredExactly(states[n], now, id, initiator, target, candidates);
  }
}

/** The registry object. */
module RendezvousObject {
  import opened Words
  import opened Forwarding
  import opened Rendezvous

  class RendezvousRegistry {
    var intents: Intents

    constructor ()
      ensures intents == map[]
    {
      intents := map[];
    }

    method RegisterIntent(now: nat, id: IntentId, initiator: DeviceId, target: DeviceId, candidates: Candidates)
      returns (r: RegisterResult)
      modifies this
      ensures (r, intents) == Register(old(intents), now, id, initiator, target, candidates)
    {
      Retain(now);
      if |intents| >= MAX_INTENTS { return AtCapacity; }
      if id in intents && intents[id].state.Pending? { return Duplicate; }
      intents := intents[id := Intent(initiator, target, candidates, [], Pending(now))];
      r := Registered;
    }

    /** Drops the pending intents that are not recent. */
    method Retain(now: nat)
      modifies this
      ensures intents == Retained(old(intents), now)
    {
      ghost var was := intents;
      var left := intents.Keys;
      while left != {}
        invariant left <= was.Keys
        invariant forall id :: id in intents <==>
                    id in was && (id in left || (was[id].state.Pending? ==> Recent(was[id].state.createdAt, now)))
        invariant forall id :: id in intents ==> intents[id] == was[id]
        decreases left
      {
        var id :| id in left;
        if intents[id].state.Pending? && !Recent(intents[id].state.createdAt, now) {
          intents := intents - {id};
        }
        left := left - {id};
      }
    }

    method AcceptIntent(now: nat, id: IntentId, acceptor: DeviceId, candidates: Candidates, random: Option<Token>)
      returns (r: AcceptResult)
      modifies this
      ensures (r, intents) == Accept(old(intents), now, id, acceptor, candidates, random)
    {
      if id !in intents { return AcceptUnknown; }
      var intent := intents[id];
      assert intents == intents[id := intent];
      match intent.state {
        case Pending(createdAt) =>
          if TimedOut(createdAt, now) {
            intents := intents[id := intent.(state := Expired)];
            return AcceptTooLate;
          }
        case Accepted(_) => return AlreadyAccepted;
        case Expired => return AcceptTooLate;
      }
      if intent.target != acceptor { return WrongAcceptor; }
      intent := intent.(targetCandidates := candidates);
      intents := intents[id := intent];
      if random.None? { return NoRandomness; }
      intents := intents[id := intent.(state := Accepted(random.value))];
      assert intents == old(intents)[id := intent.(state := Accepted(random.value))];
      r := AcceptOk(intent.initiator, intent.initiatorCandidates, random.value);
    }

    method GetTargetCandidates(id: IntentId, requester: DeviceId) returns (r: GetResult)
      ensures r == GetTarget(intents, id, requester)
    {
      if id !in intents { return GetUnknown; }
      var intent := intents[id];
      match intent.state {
        case Pending(_) => return NotYetAccepted;
        case Expired => return GetExpired;
        case Accepted(token) =>
          if intent.initiator != requester { return NotTheInitiator; }
          return GetResult.Candidates(intent.targetCandidates, token);
      }
    }

    /** Marks every timed-out pending intent expired and counts them. */
    method SweepExpired(now: nat) returns (swept: nat)
      modifies this
      ensures intents == ExpireAll(old(intents), now)
      ensures swept == |set id | id in old(intents) && Expiring(old(intents)[id], now)|
    {
      ghost var was := intents;
      ghost var done := {};
      swept := 0;
      var left := intents.Keys;
      while left != {}
        invariant left <= was.Keys && intents.Keys == was.Keys
        invariant forall id :: id in was ==> intents[id] == if id in left then was[id] else ExpireOne(was[id], now)
        invariant done == set id | id in was && id !in left && Expiring(was[id], now)
        invariant swept == |done|
        decreases left
      {
        var id :| id in left;
        if Expiring(intents[id], now) {
          intents := intents[id := intents[id].(state := Expired)];
          swept := swept + 1;
          done := done + {id};
        }
        left := left - {id};
      }
      assert done == set id | id in was && Expiring(was[id], now);
    }

    /** The recent pending intents for a target, each once, in no particular order. */
    method PendingFor(now: nat, target: DeviceId) returns (result: seq<(IntentId, DeviceId)>)
      ensures forall p :: p in result <==> Listed(intents, now, p.0, target) && p.1 == intents[p.0].initiator
      ensures forall i, j :: 0 <= i < j < |result| ==> result[i].0 != result[j].0
    {
      result := [];
      var left := intents.Keys;
      while left != {}
        invariant left <= intents.Keys
        invariant forall p :: p in result <==>
                    p.0 !in left && Listed(intents, now, p.0, target) && p.1 == intents[p.0].initiator
        invariant forall i, j :: 0 <= i < j < |result| ==> result[i].0 != result[j].0
        decreases left
      {
        var id :| id in left;
        assert forall p :: p in result ==> p.0 != id;
        if Listed(intents, now, id, target) {
          result := result + [(id, intents[id].initiator)];
        }
        left := left - {id};
      }
    }
  }
}
