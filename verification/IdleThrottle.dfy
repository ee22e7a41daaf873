/**
 The idle-action throttle of configs/opencode-hooks/index.ts: per key at most one action at a
 time, and none sooner than its interval after the last start.  Times come from a clock that
 may jump in either direction.
 */
module IdleThrottle {
  import opened Text

  /** The module-level Map and Set. */
  datatype State = State(lastRunAt: map<string, int>, inFlight: set<string>)

  const INITIAL := State(map[], {})

  /** A call of runIdleAction up to the start of its action, or the end of a running action. */
  datatype Event = Call(key: string, intervalMs: int, now: int) | Finish(key: string)

  function LastAt(s: State, key: string): int {
    if key in s.lastRunAt then s.lastRunAt[key] else 0
  }

  predicate Admits(s: State, key: string, intervalMs: int, now: int) {
    intervalMs > 0 && key !in s.inFlight && now - LastAt(s, key) >= intervalMs
  }

  function Apply(s: State, e: Event): State {
    match e
    case Call(key, intervalMs, now) =>
      if Admits(s, key, intervalMs, now) then State(s.lastRunAt[key := now], s.inFlight + {key}) else s
    case Finish(key) => s.(inFlight := s.inFlight - {key})
  }

  function Replay(events: seq<Event>): State {
    if events == [] then INITIAL else Apply(Replay(events[..|events| - 1]), events[|events| - 1])
  }

  class IdleActions {
    var lastRunAt: map<string, int>
    var inFlight: set<string>
    /** Every start and end so far. */
    ghost var history: seq<Event>

    ghost predicate Valid()
      reads this
    {
      State(lastRunAt, inFlight) == Replay(history)
    }

    constructor ()
      ensures Valid() && history == []
    {
      lastRunAt, inFlight, history := map[], {}, [];
    }

    /** Up to the await: nothing can interleave here.  All that is said below of the starts in a
        history holds of the actions this has admitted. */
    method Start(key: string, intervalMs: int, now: int) returns (started: bool)
      requires Valid()
      modifies this
      ensures Valid() && history == old(history) + [Call(key, intervalMs, now)]
      ensures started <==> StartsAt(history, key, |old(history)|)
    {
      history := history + [Call(key, intervalMs, now)];
      assert history[..|old(history)|] == old(history);
      if intervalMs <= 0 { return false; }
      if key in inFlight { return false; }
      var lastAt := if key in lastRunAt then lastRunAt[key] else 0;
      if now - lastAt < intervalMs { return false; }
      lastRunAt := lastRunAt[key := now];
      inFlight := inFlight + {key};
      started := true;
    }

    /** The finally block, whether the action succeeded or not. */
    method End(key: string)
      requires Valid()
      modifies this
      ensures Valid() && history == old(history) + [Finish(key)]
    {
      history := history + [Finish(key)];
      assert history[..|old(history)|] == old(history);
      inFlight := inFlight - {key};
    }
  }

  // ----- starts of one key over a whole run

  /** The call at position i was admitted and started an action for the key. */
  predicate StartsAt(events: seq<Event>, key: string, i: int) {
    0 <= i < |events| && events[i].Call? && events[i].key == key
    && Admits(Replay(events[..i]), key, events[i].intervalMs, events[i].now)
  }

  lemma {:induction false} InFlightSince(events: seq<Event>, key: string, p: nat, n: nat)
    requires p < n <= |events| && StartsAt(events, key, p)
    requires forall r | p < r < n :: events[r] != Finish(key)
    ensures key in Replay(events[..n]).inFlight
  {
    assert events[..n][..n - 1] == events[..n - 1];
    if p < n - 1 { InFlightSince(events, key, p, n - 1); }
  }

  /** The last start of the key before position n. */
  ghost predicate LastStartBefore(events: seq<Event>, key: string, n: nat, p: nat) {
    p < n && StartsAt(events, key, p) && forall q | p < q < n :: !StartsAt(events, key, q)
  }

  ghost predicate NoStartBefore(events: seq<Event>, key: string, n: nat) {
    forall p | 0 <= p < n :: !StartsAt(events, key, p)
  }

  ghost predicate RunsSince(events: seq<Event>, key: string, p: nat, n: nat)
    requires n <= |events|
  {
    forall r | p < r < n :: events[r] != Finish(key)
  }

  /** What decides a call, read off the history alone: no action of the key runs, and the
      interval has passed since the last start, or since time zero when there was none. */
  ghost predicate Due(events: seq<Event>, key: string, n: nat, intervalMs: int, now: int)
    requires n <= |events|
  {
    && (NoStartBefore(events, key, n) ==> now >= intervalMs)
    && (forall p: nat | LastStartBefore(events, key, n, p) ::
          now >= events[p].now + intervalMs && !RunsSince(events, key, p, n))
  }

  /** A call starts its action exactly when its interval is positive and it is due. */
  lemma StartsIffDue(events: seq<Event>, key: string, n: nat)
    requires n < |events|
    ensures StartsAt(events, key, n) <==>
              events[n].Call? && events[n].key == key && events[n].intervalMs > 0
              && Due(events, key, n, events[n].intervalMs, events[n].now)
  {
    var last := StateAt(events, key, n);
    if last >= 0 {
      forall p: nat | LastStartBefore(events, key, n, p) ensures p == last {
        assert !(p < last) && !(last < p);
      }
    }
  }

  /** Map and set after n events say when the key last started and whether it still runs. */
  lemma {:induction false} StateAt(events: seq<Event>, key: string, n: nat) returns (last: int)
    requires n <= |events|
    ensures -1 <= last < n
    ensures last == -1 ==> NoStartBefore(events, key, n)
    ensures last == -1 ==> LastAt(Replay(events[..n]), key) == 0 && key !in Replay(events[..n]).inFlight
    ensures last >= 0 ==> LastStartBefore(events, key, n, last)
    ensures last >= 0 ==> LastAt(Replay(events[..n]), key) == events[last].now
    ensures last >= 0 ==> (key in Replay(events[..n]).inFlight <==> RunsSince(events, key, last, n))
  {
    last := -1;
    if n > 0 {
      last := StateAt(events, key, n - 1);
      assert events[..n][..n - 1] == events[..n - 1];
      if StartsAt(events, key, n - 1) { last := n - 1; }
    }
  }

  /** Executions of one key never overlap: between two starts the first one ends. */
  lemma NoOverlap(events: seq<Event>, key: string, p: nat, q: nat)
    requires p < q && StartsAt(events, key, p) && StartsAt(events, key, q)
    ensures exists r | p < r < q :: events[r] == Finish(key)
  {
    if forall r | p < r < q :: events[r] != Finish(key) {
      InFlightSince(events, key, p, q);
      assert false;
    }
  }

  datatype Start = Start(at: int, intervalMs: int)

  /** The admitted starts of the key, in order. */
  function Starts(events: seq<Event>, key: string): seq<Start> {
    if events == [] then []
    else
      var last := |events| - 1;
      Starts(events[..last], key) + if StartsAt(events, key, last) then [Start(events[last].now, events[last].intervalMs)] else []
  }

  /** Every start lies at least its own interval after every earlier start. */
  ghost predicate Spaced(starts: seq<Start>) {
    && (forall i | 0 <= i < |starts| :: starts[i].intervalMs > 0)
    && (forall i, j | 0 <= i < j < |starts| :: starts[j].at >= starts[i].at + starts[j].intervalMs)
  }

  lemma {:induction false} StartsAreSpaced(events: seq<Event>, key: string)
    ensures Spaced(Starts(events, key))
    ensures Starts(events, key) != [] ==> LastAt(Replay(events), key) == Starts(events, key)[|Starts(events, key)| - 1].at
  {
    if events != [] {
      StartsAreSpaced(events[..|events| - 1], key);
    }
  }

  lemma {:induction false} FilterSpaced(starts: seq<Start>, keep: Start -> bool)
    requires Spaced(starts)
    ensures Spaced(Filter(starts, keep))
    ensures forall s | s in Filter(starts, keep) :: s in starts && keep(s)
  {
    if starts != [] {
      var init, last := starts[..|starts| - 1], starts[|starts| - 1];
      FilterSpaced(init, keep);
      forall i | 0 <= i < |Filter(init, keep)| ensures last.at >= Filter(init, keep)[i].at + last.intervalMs {
        assert Filter(init, keep)[i] in init;
      }
    }
  }

  lemma {:induction false} SpreadOut(starts: seq<Start>, interval: nat)
    requires Spaced(starts) && starts != [] && forall s | s in starts :: s.intervalMs == interval
    ensures starts[|starts| - 1].at >= starts[0].at + (|starts| - 1) * interval
  {
    if |starts| > 1 {
      var last := starts[|starts| - 1];
      assert last in starts && last.at >= starts[|starts| - 2].at + last.intervalMs;
      SpreadOut(starts[..|starts| - 1], interval);
      assert (|starts| - 1) * interval == (|starts| - 2) * interval + interval;
    }
  }

  /** A key always called with one interval starts at most (b - a) / interval + 1 times in any
      window from a to b, whatever the clock does. */
  lemma WindowBound(events: seq<Event>, key: string, interval: nat, a: int, b: int)
    requires interval > 0 && a <= b
    requires forall e | e in events && e.Call? && e.key == key :: e.intervalMs == interval
    ensures |Filter(Starts(events, key), (s: Start) => a <= s.at <= b)| <= (b - a) / interval + 1
  {
    var keep := (s: Start) => a <= s.at <= b;
    StartsAreSpaced(events, key);
    FilterSpaced(Starts(events, key), keep);
    StartsUseInterval(events, key, interval);
    FitsWindow(Filter(Starts(events, key), keep), interval, a, b);
  }

  lemma FitsWindow(starts: seq<Start>, interval: nat, a: int, b: int)
    requires interval > 0 && a <= b && Spaced(starts)
    requires forall s | s in starts :: s.intervalMs == interval && a <= s.at <= b
    ensures |starts| <= (b - a) / interval + 1
  {
    if starts != [] {
      assert starts[0] in starts && starts[|starts| - 1] in starts;
      SpreadOut(starts, interval);
      DivideBound(|starts| - 1, interval, b - a);
    }
  }

  lemma DivideBound(n: nat, interval: nat, width: nat)
    requires interval > 0 && n * interval <= width
    ensures n <= width / interval
  {
    var q := width / interval;
    assert n * interval <= width < (q + 1) * interval;
    FactorOrder(n, q + 1, interval);
  }

  lemma FactorOrder(m: nat, n: nat, k: nat)
    requires m * k < n * k
    ensures m < n
  {}

  lemma {:induction false} StartsUseInterval(events: seq<Event>, key: string, interval: int)
    requires forall e | e in events && e.Call? && e.key == key :: e.intervalMs == interval
    ensures forall s | s in Starts(events, key) :: s.intervalMs == interval
  {
    if events != [] {
      var last := |events| - 1;
      assert events[last] in events;
      assert forall e | e in events[..last] :: e in events;
      StartsUseInterval(events[..last], key, interval);
    }
  }
}
