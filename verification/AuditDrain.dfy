/**
 The audit drain (foxcular/audit/audit.go): Send takes the next place in the chain under a
 lock and delivers after releasing it, so deliveries may overtake each other and may fail.
 First the drain as an object, then every interleaving of concurrent sends as a state machine.
 */
module AuditDrain {
  import opened AuditChain

  // ----- the chain that the lock hands out

  /** The events signed one after the other: each names its predecessor's hash, from 1 on. */
  function SignAll(mac: Mac, key: Key, originals: seq<Event>): (chain: seq<Event>)
    ensures |chain| == |originals|
  {
    if originals == [] then []
    else
      var chain := SignAll(mac, key, originals[..|originals| - 1]);
      chain + [Sign(mac, key, originals[|originals| - 1], PrevHashAt(chain, |chain|), |originals|)]
  }

  /** Every place of the chain is the signature of its original on top of the chain so far. */
  lemma {:induction false} ChainAt(mac: Mac, key: Key, originals: seq<Event>, i: nat)
    requires i < |originals|
    ensures var chain := SignAll(mac, key, originals);
            && chain[i] == Sign(mac, key, originals[i], PrevHashAt(chain, i), i + 1)
            && StoredSeq(chain[i]) == i + 1
  {
    var init := originals[..|originals| - 1];
    if i < |init| {
      ChainAt(mac, key, init, i);
      assert PrevHashAt(SignAll(mac, key, init), i) == PrevHashAt(SignAll(mac, key, originals), i);
    }
  }

  lemma ChainPlace(mac: Mac, key: Key, originals: seq<Event>, list: seq<Event>, i: nat)
    requires i < |list| && list <= SignAll(mac, key, originals)
    ensures list[i] == Sign(mac, key, originals[i], PrevHashAt(list, i), i + 1)
  {
    var chain := SignAll(mac, key, originals);
    ChainAt(mac, key, originals, i);
    assert list[i] == chain[i];
    assert PrevHashAt(list, i) == PrevHashAt(chain, i);
  }

  /** A list passes at i, as far as the chain goes, when it agrees with the chain there. */
  lemma ChainPassesIffClean(mac: Mac, key: Key, originals: seq<Event>, list: seq<Event>, i: nat)
    requires GoodMac(mac) && i < |list| && list <= SignAll(mac, key, originals)
    ensures PassesAt(mac, key, list, i) <==> !HasAuditKeys(originals[i].data)
  {
    ChainPlace(mac, key, originals, list, i);
    SignedPassesIffClean(mac, key, originals[i], PrevHashAt(list, i), i + 1);
  }

  /** Among lists of chain events, exactly the prefixes of clean events are accepted. */
  lemma ChainListAcceptedIff(mac: Mac, key: Key, originals: seq<Event>, list: seq<Event>)
    requires GoodMac(mac)
    requires forall e | e in list :: e in SignAll(mac, key, originals)
    ensures Accepts(mac, key, list) <==>
              && list <= SignAll(mac, key, originals)
              && forall i | 0 <= i < |list| :: !HasAuditKeys(originals[i].data)
  {
    var chain := SignAll(mac, key, originals);
    if Accepts(mac, key, list) {
      forall i | 0 <= i < |list| ensures i < |chain| && list[i] == chain[i] {
        assert PassesAt(mac, key, list, i);
        assert list[i] in list;
        var j :| 0 <= j < |chain| && chain[j] == list[i];
        ChainAt(mac, key, originals, j);
      }
      if list != [] {
        var last := |list| - 1;
        assert list[last] in list && last < |chain|;
      }
      assert list <= chain;
    }
    if list <= chain {
      forall i | 0 <= i < |list| ensures PassesAt(mac, key, list, i) <==> !HasAuditKeys(originals[i].data) {
        ChainPassesIffClean(mac, key, originals, list, i);
      }
    }
  }

  /** Signing and verifying are inverse on clean events: the whole chain is accepted exactly
      when no original carried audit keys. */
  lemma SignAllAcceptedIffClean(mac: Mac, key: Key, originals: seq<Event>)
    requires GoodMac(mac)
    ensures Accepts(mac, key, SignAll(mac, key, originals)) <==> forall i | 0 <= i < |originals| :: !HasAuditKeys(originals[i].data)
  {
    ChainListAcceptedIff(mac, key, originals, SignAll(mac, key, originals));
  }

  // ----- the drain as an object

  /** An event object; Send writes into its Data. */
  class EventObject {
    const fields: Fields
    const errorMessage: string
    const forced: bool
    const subMillis: int
    var data: map<string, Value>

    constructor (e: Event)
      ensures Snapshot() == e
    {
      fields, errorMessage, forced, subMillis, data := e.fields, e.errorMessage, e.forced, e.subMillis, e.data;
    }

    function Snapshot(): Event
      reads this
    {
      Event(fields, data, errorMessage, forced, subMillis)
    }
  }

  /** A downstream drain that keeps what it accepts and may fail at any time. */
  class Sink {
    /** Every event it was sent. */
    ghost var offered: seq<Event>
    var received: seq<Event>

    method Send(e: Event) returns (ok: bool)
      modifies this
      ensures offered == old(offered) + [e]
      ensures received == if ok then old(received) + [e] else old(received)
    {
      offered := offered + [e];
      ok := *;
      if ok { received := received + [e]; }
    }
  }

  class AuditDrain {
    const mac: Mac
    const key: Key
    const drain: Sink
    var prevHash: string
    var seqNo: nat

    constructor (mac: Mac, key: Key, drain: Sink)
      ensures this.mac == mac && this.key == key && this.drain == drain
      ensures drain.received == [] ==> Represents(INITIAL)
    {
      this.mac, this.key, this.drain := mac, key, drain;
      prevHash, seqNo := "", 0;
    }

    /** The drain and its sink are in the abstract state s, in flight and failed events apart. */
    ghost predicate Represents(s: State)
      reads this, drain
    {
      prevHash == s.prevHash && seqNo == s.seqNo && drain.received == s.delivered
    }

    /** The section under the lock is the lock step. */
    method Advance(e: Event, ghost s: State) returns (hash: string, previous: string, place: nat)
      requires Represents(s)
      modifies this
      ensures Represents(After(mac, key, s, Lock(e)))
      ensures Attach(e, hash, previous, place) == SignedNext(mac, key, s, e)
    {
      previous := prevHash;
      place := seqNo + 1;
      hash := Hmac(mac, key, SentPayload(e, previous, place));
      seqNo := place;
      prevHash := hash;
    }

    /** A nil event is ignored; any other is signed in place and passed on once: a lock step
        followed by a deliver or a fail step of the same event. */
    method Send(event: EventObject?, ghost s: State) returns (ok: bool)
      requires Represents(s)
      modifies this, event, drain
      ensures event == null ==> ok && Represents(s) && drain.offered == old(drain.offered)
      ensures event != null ==>
                var e := old(event.Snapshot());
                && event.Snapshot() == SignedNext(mac, key, s, e)
                && drain.offered == old(drain.offered) + [event.Snapshot()]
                && Represents(AfterSend(mac, key, s, e, ok))
    {
      if event == null { return true; }
      var e := event.Snapshot();
      var hash, previous, place := Advance(e, s);
      event.data := event.data[HASH_KEY := Text(hash)];
      event.data := event.data[PREV_HASH_KEY := Text(previous)];
      event.data := event.data[SEQ_KEY := Uint64(place)];
      assert event.Snapshot() == Attach(e, hash, previous, place);
      var signed := event.Snapshot();
      ok := drain.Send(signed);
    }
  }

  // ----- concurrent sends

  /** originals: the events in the order in which the lock was taken, as they were then.
      Signed events are in flight after the lock, then delivered or failed. */
  datatype State = State(
    prevHash: string, seqNo: nat, originals: seq<Event>,
    inFlight: multiset<Event>, delivered: seq<Event>, failed: multiset<Event>)

  const INITIAL := State("", 0, [], multiset{}, [], multiset{})

  datatype Action = Lock(e: Event) | Deliver(signed: Event) | Fail(signed: Event)

  /** The event that the next lock step signs. */
  function SignedNext(mac: Mac, key: Key, s: State, e: Event): Event {
    Sign(mac, key, e, s.prevHash, s.seqNo + 1)
  }

  function After(mac: Mac, key: Key, s: State, action: Action): State {
    match action
    case Lock(e) =>
      var signed := SignedNext(mac, key, s, e);
      s.(prevHash := StoredHash(signed), seqNo := s.seqNo + 1, originals := s.originals + [e],
         inFlight := s.inFlight + multiset{signed})
    case Deliver(signed) => s.(inFlight := s.inFlight - multiset{signed}, delivered := s.delivered + [signed])
    case Fail(signed) => s.(inFlight := s.inFlight - multiset{signed}, failed := s.failed + multiset{signed})
  }

  ghost predicate Step(mac: Mac, key: Key, s: State, action: Action, t: State) {
    t == After(mac, key, s, action)
    && match action
       case Lock(_) => true
       case Deliver(signed) => signed in s.inFlight
       case Fail(signed) => signed in s.inFlight
  }

  /** Where a send that nothing interleaves ends. */
  function AfterSend(mac: Mac, key: Key, s: State, e: Event, ok: bool): State {
    After(mac, key, After(mac, key, s, Lock(e)), Settle(SignedNext(mac, key, s, e), ok))
  }

  function Settle(signed: Event, ok: bool): Action { if ok then Deliver(signed) else Fail(signed) }

  /** A send is a lock step and a deliver or fail step of the event that it signed. */
  lemma SendIsTwoSteps(mac: Mac, key: Key, s: State, e: Event, ok: bool)
    ensures Step(mac, key, s, Lock(e), After(mac, key, s, Lock(e)))
    ensures Step(mac, key, After(mac, key, s, Lock(e)), Settle(SignedNext(mac, key, s, e), ok), AfterSend(mac, key, s, e, ok))
    ensures AfterSend(mac, key, s, e, ok).inFlight == s.inFlight
  {
    assert SignedNext(mac, key, s, e) in After(mac, key, s, Lock(e)).inFlight;
  }

  /** Sends that do not interleave: the drain signs the next event of the chain, and the sink
      receives it unless it fails. */
  lemma SendExtendsChain(mac: Mac, key: Key, s: State, e: Event, ok: bool)
    requires Chained(mac, key, s)
    ensures Chained(mac, key, AfterSend(mac, key, s, e, ok))
    ensures SignAll(mac, key, AfterSend(mac, key, s, e, ok).originals) == SignAll(mac, key, s.originals) + [SignedNext(mac, key, s, e)]
  {
    SendIsTwoSteps(mac, key, s, e, ok);
    StepKeepsChained(mac, key, s, Lock(e), After(mac, key, s, Lock(e)));
    StepKeepsChained(mac, key, After(mac, key, s, Lock(e)), Settle(SignedNext(mac, key, s, e), ok), AfterSend(mac, key, s, e, ok));
    LockExtendsChain(mac, key, s, e);
  }

  lemma LockExtendsChain(mac: Mac, key: Key, s: State, e: Event)
    requires s.seqNo == |s.originals|
    requires s.prevHash == PrevHashAt(SignAll(mac, key, s.originals), |s.originals|)
    ensures SignAll(mac, key, s.originals + [e]) == SignAll(mac, key, s.originals) + [SignedNext(mac, key, s, e)]
  {
    assert (s.originals + [e])[..|s.originals|] == s.originals;
  }

  ghost predicate IsRun(mac: Mac, key: Key, actions: seq<Action>, states: seq<State>) {
    && |states| == |actions| + 1 && states[0] == INITIAL
    && forall i | 0 <= i < |actions| :: Step(mac, key, states[i], actions[i], states[i + 1])
  }

  /** The events handed out form one chain numbered 1..n, and each is in exactly one of in
      flight, delivered and failed. */
  ghost predicate Chained(mac: Mac, key: Key, s: State) {
    var chain := SignAll(mac, key, s.originals);
    && s.seqNo == |chain| && s.prevHash == PrevHashAt(chain, |chain|)
    && s.inFlight + multiset(s.delivered) + s.failed == multiset(chain)
  }

  lemma LockKeepsChained(mac: Mac, key: Key, s: State, e: Event, t: State)
    requires Chained(mac, key, s) && Step(mac, key, s, Lock(e), t)
    ensures Chained(mac, key, t)
  {
    var chain, signed := SignAll(mac, key, s.originals), SignedNext(mac, key, s, e);
    LockExtendsChain(mac, key, s, e);
    assert multiset(chain + [signed]) == multiset(chain) + multiset{signed};
    Added(s.inFlight, multiset(s.delivered), s.failed, signed);
  }

  lemma Added(a: multiset<Event>, b: multiset<Event>, c: multiset<Event>, x: Event)
    ensures (a + multiset{x}) + b + c == (a + b + c) + multiset{x}
  {}

  lemma Moved(a: multiset<Event>, b: multiset<Event>, c: multiset<Event>, x: Event)
    requires x in a
    ensures (a - multiset{x}) + (b + multiset{x}) + c == a + b + c
    ensures (a - multiset{x}) + c + (b + multiset{x}) == a + c + b
  {}

  lemma StepKeepsChained(mac: Mac, key: Key, s: State, action: Action, t: State)
    requires Chained(mac, key, s) && Step(mac, key, s, action, t)
    ensures Chained(mac, key, t)
  {
    match action
    case Lock(e) =>
      LockKeepsChained(mac, key, s, e, t);
    case Deliver(signed) =>
      assert multiset(s.delivered + [signed]) == multiset(s.delivered) + multiset{signed};
      Moved(s.inFlight, multiset(s.delivered), s.failed, signed);
    case Fail(signed) =>
      Moved(s.inFlight, s.failed, multiset(s.delivered), signed);
  }

  lemma {:induction false} RunIsChained(mac: Mac, key: Key, actions: seq<Action>, states: seq<State>, i: nat)
    requires IsRun(mac, key, actions, states) && i < |states|
    ensures Chained(mac, key, states[i])
  {
    if i == 0 {
      InitialIsChained(mac, key);
    } else {
      var s, t := states[i - 1], states[i];
      RunIsChained(mac, key, actions, states, i - 1);
      StepOfRun(mac, key, actions, states, i - 1, s, t);
      StepKeepsChained(mac, key, s, actions[i - 1], t);
    }
  }

  lemma StepOfRun(mac: Mac, key: Key, actions: seq<Action>, states: seq<State>, i: nat, s: State, t: State)
    requires IsRun(mac, key, actions, states) && i < |actions| && s == states[i] && t == states[i + 1]
    ensures Step(mac, key, s, actions[i], t)
  {}

  lemma InitialIsChained(mac: Mac, key: Key)
    ensures Chained(mac, key, INITIAL)
  {}

  /** No two events of the chain are equal, so no event is in two places. */
  lemma HandedOutOnce(mac: Mac, key: Key, s: State, e: Event)
    requires Chained(mac, key, s)
    ensures s.inFlight[e] + multiset(s.delivered)[e] + s.failed[e] <= 1
  {
    var chain := SignAll(mac, key, s.originals);
    forall i, j | 0 <= i < j < |chain| ensures chain[i] != chain[j] {
      ChainAt(mac, key, s.originals, i);
      ChainAt(mac, key, s.originals, j);
    }
    DistinctOccursOnce(chain, e);
    assert multiset(chain)[e] == s.inFlight[e] + multiset(s.delivered)[e] + s.failed[e];
  }

  lemma {:induction false} DistinctOccursOnce(list: seq<Event>, e: Event)
    requires forall i, j | 0 <= i < j < |list| :: list[i] != list[j]
    ensures multiset(list)[e] <= 1
  {
    if list != [] {
      var init, last := list[..|list| - 1], list[|list| - 1];
      DistinctOccursOnce(init, e);
      assert list == init + [last];
      if e == last {
        assert e !in init;
        assert multiset(init)[e] == 0;
      }
    }
  }

  /** In every reachable state the sink's list is accepted exactly when it is the beginning of
      the chain, in order, and its events carried no audit keys when they were locked. */
  lemma SinkAcceptedIff(mac: Mac, key: Key, actions: seq<Action>, states: seq<State>, i: nat)
    requires GoodMac(mac) && IsRun(mac, key, actions, states) && i < |states|
    ensures Accepts(mac, key, states[i].delivered) <==>
              && states[i].delivered <= SignAll(mac, key, states[i].originals)
              && forall j | 0 <= j < |states[i].delivered| :: !HasAuditKeys(states[i].originals[j].data)
  {
    var s := states[i];
    RunIsChained(mac, key, actions, states, i);
    forall e | e in s.delivered ensures e in SignAll(mac, key, s.originals) {
      assert e in multiset(s.delivered);
      assert e in multiset(SignAll(mac, key, s.originals));
    }
    ChainListAcceptedIff(mac, key, s.originals, s.delivered);
  }

  /** One failed delivery is final: no sink list that reaches its number is accepted. */
  lemma FailureBreaksChain(mac: Mac, key: Key, actions: seq<Action>, states: seq<State>, i: nat, lost: Event)
    requires GoodMac(mac) && IsRun(mac, key, actions, states) && i < |states| && lost in states[i].failed
    requires Accepts(mac, key, states[i].delivered)
    ensures |states[i].delivered| < StoredSeq(lost)
  {
    var s := states[i];
    var chain := SignAll(mac, key, s.originals);
    RunIsChained(mac, key, actions, states, i);
    SinkAcceptedIff(mac, key, actions, states, i);
    assert lost in multiset(chain);
    var n :| 0 <= n < |chain| && chain[n] == lost;
    ChainAt(mac, key, s.originals, n);
    if n < |s.delivered| {
      assert s.delivered[n] == lost;
      assert multiset(s.delivered)[lost] >= 1 && s.failed[lost] >= 1;
      HandedOutOnce(mac, key, s, lost);
      assert false;
    }
  }
}
