/** The blocklist over every sequence of failed lookups: dropping stale entries when the table is full
    never changes a verdict, and an address is judged by its own failures alone.
 */
module Blocklist {
  import opened Words
  import opened Forwarding

  datatype Failure = Failure(ip: nat, at: nat)

  predicate InOrder(events: seq<Failure>) {
    forall i, j :: 0 <= i < j < |events| ==> events[i].at <= events[j].at
  }

  function After(events: seq<Failure>): map<nat, Failures> {
    if events == [] then map[]
    else
      var last := events[|events| - 1];
      RecordFailure(After(events[..|events| - 1]), last.ip, last.at)
  }

  /** One address's own record: how many failures since its window began, and when that was. */
  function OwnStep(own: Option<Failures>, at: nat): Option<Failures> {
    if own.None? || at > own.value.windowStart + BLOCKLIST_WINDOW_MS then Some(Failures(1, at))
    else Some(Failures(own.value.count + 1, own.value.windowStart))
  }

  function Own(events: seq<Failure>, ip: nat): Option<Failures> {
    if events == [] then None
    else
      var last := events[|events| - 1];
      var before := Own(events[..|events| - 1], ip);
      if last.ip == ip then OwnStep(before, last.at) else before
  }

  /** The table's entry is the address's own record, unless that record is stale and was dropped. */
  predicate Agrees(failed: map<nat, Failures>, own: Option<Failures>, ip: nat, now: nat) {
    if ip in failed then own == Some(failed[ip]) && failed[ip].windowStart <= now
    else own.None? || (own.value.windowStart <= now && Stale(own.value, now))
  }

  lemma AgreesLater(failed: map<nat, Failures>, own: Option<Failures>, ip: nat, now: nat, later: nat)
    requires Agrees(failed, own, ip, now) && now <= later
    ensures Agrees(failed, own, ip, later)
    ensures Agrees(Evict(failed, later), own, ip, later)
  {
  }

  lemma AgreesStep(failed: map<nat, Failures>, own: Option<Failures>, last: Failure, ip: nat)
    requires Agrees(failed, own, ip, last.at)
    ensures Agrees(CountFailure(failed, last.ip, last.at), if last.ip == ip then OwnStep(own, last.at) else own, ip, last.at)
  {
  }

  lemma {:induction false} TableAgrees(events: seq<Failure>, ip: nat, now: nat)
    requires InOrder(events) && (events != [] ==> events[|events| - 1].at <= now)
    ensures Agrees(After(events), Own(events, ip), ip, now)
  {
    if events != [] {
      var last := events[|events| - 1];
      var before := events[..|events| - 1];
      TableAgrees(before, ip, last.at);
      AgreesLater(After(before), Own(before, ip), ip, last.at, last.at);
      AgreesStep(Evict(After(before), last.at), Own(before, ip), last, ip);
      AgreesLater(After(events), Own(events, ip), ip, last.at, now);
    }
  }

  /** Its own record counts twenty or more failures in a window that began at most a minute ago. */
  predicate Blocked(events: seq<Failure>, ip: nat, now: nat) {
    var own := Own(events, ip);
    own.Some? && own.value.count >= BLOCKLIST_THRESHOLD && now <= own.value.windowStart + BLOCKLIST_WINDOW_MS
  }

  /** Main result: after any failures in time order, an address is blocked exactly by its own record. */
  lemma {:induction false} BlockedExactly(events: seq<Failure>, ip: nat, now: nat)
    requires InOrder(events) && (events != [] ==> events[|events| - 1].at <= now)
    ensures Blocklisted(After(events), ip, now) <==> Blocked(events, ip, now)
  {
    TableAgrees(events, ip, now);
  }

  /** Failures of one address, in order. */
  function Of(events: seq<Failure>, ip: nat): seq<Failure> {
    if events == [] then []
    else
      var last := events[|events| - 1];
      Of(events[..|events| - 1], ip) + if last.ip == ip then [last] else []
  }

  lemma {:induction false} OwnIsOf(events: seq<Failure>, ip: nat)
    ensures Own(Of(events, ip), ip) == Own(events, ip)
  {
    if events != [] {
      var before := events[..|events| - 1];
      OwnIsOf(before, ip);
      if events[|events| - 1].ip == ip {
        var own := Of(events, ip);
        assert own == Of(before, ip) + [events[|events| - 1]];
        assert own[..|own| - 1] == Of(before, ip) && own[|own| - 1] == events[|events| - 1];
      } else {
        assert Of(events, ip) == Of(before, ip);
      }
    }
  }

  lemma {:induction false} OfInOrder(events: seq<Failure>, ip: nat)
    requires InOrder(events)
    ensures InOrder(Of(events, ip))
    ensures forall k :: 0 <= k < |Of(events, ip)| ==> Of(events, ip)[k].at <= events[|events| - 1].at
    ensures events == [] ==> Of(events, ip) == []
  {
    if events != [] { OfInOrder(events[..|events| - 1], ip); }
  }

  /** Failures of other addresses, however many, never change the verdict on an address. */
  lemma {:induction false} OthersDoNotMatter(events: seq<Failure>, ip: nat, now: nat)
    requires InOrder(events) && (events != [] ==> events[|events| - 1].at <= now)
    ensures Blocklisted(After(events), ip, now) <==> Blocklisted(After(Of(events, ip)), ip, now)
  {
    OfInOrder(events, ip);
    OwnIsOf(events, ip);
    BlockedExactly(events, ip, now);
    BlockedExactly(Of(events, ip), ip, now);
  }
}
