/**
 The in-flight correlation tracker of internal/console/correlation.go: an object over a
 bounded map of pending asks, and what the map holds after any history of operations.
 */
module Correlation {
  import opened Options
  import opened Sets

  datatype Pending = Pending(
    correlationID: string, consoleID: string, actorID: string, startedAt: int, content: string,
    streamedContent: string, cancelled: bool)

  type PendingMap = map<string, Pending>

  /** id is the fresh identifier and now the clock reading of a new correlation. */
  datatype Op =
    | New(id: string, consoleID: string, actorID: string, content: string, now: int)
    | Complete(id: string)
    | Cancel(id: string)
    | Append(id: string, chunk: string)
    | Clear

  function Apply(pending: PendingMap, maxInFlight: nat, op: Op): PendingMap {
    match op
    case New(id, consoleID, actorID, content, now) =>
      if |pending| >= maxInFlight then pending
      else pending[id := Pending(id, consoleID, actorID, now, content, "", false)]
    case Complete(id) => pending - {id}
    case Cancel(id) => if id in pending then pending[id := pending[id].(cancelled := true)] else pending
    case Append(id, chunk) =>
      if id in pending then pending[id := pending[id].(streamedContent := pending[id].streamedContent + chunk)] else pending
    case Clear => map[]
  }

  function Replay(maxInFlight: nat, ops: seq<Op>): PendingMap {
    if ops == [] then map[]
    else Apply(Replay(maxInFlight, ops[..|ops| - 1]), maxInFlight, ops[|ops| - 1])
  }

  /** The list holds the entries of exactly the given keys, each key once, in the order of ids. */
  ghost predicate Lists(pending: PendingMap, keys: set<string>, ids: seq<string>, list: seq<Pending>) {
    && |ids| == |list| && (forall i, j | 0 <= i < j < |ids| :: ids[i] != ids[j])
    && (forall id :: id in keys <==> id in ids)
    && forall i | 0 <= i < |ids| :: ids[i] in pending && list[i] == pending[ids[i]]
  }

  // ----- the tracker

  class CorrelationTracker {
    var pending: PendingMap
    const maxInFlight: nat
    /** Every operation so far. */
    ghost var history: seq<Op>

    /** All that is said below of what a history leaves behind holds of the pending entries. */
    ghost predicate Valid()
      reads this
    {
      pending == Replay(maxInFlight, history) && |pending| <= maxInFlight
    }

    constructor (maxInFlight: int)
      ensures Valid() && history == [] && this.maxInFlight == if maxInFlight <= 0 then 1 else maxInFlight
    {
      this.pending, this.history := map[], [];
      this.maxInFlight := if maxInFlight <= 0 then 1 else maxInFlight;
    }

    /** The operation is done: its effect is that of Apply. */
    ghost method Record(op: Op, before: PendingMap)
      requires before == Replay(maxInFlight, history) && pending == Apply(before, maxInFlight, op)
      modifies this`history
      ensures Valid() && history == old(history) + [op]
    {
      history := history + [op];
      assert history[..|old(history)|] == old(history);
      WithinLimit(maxInFlight, history);
    }

    /** None is the error that the limit is reached. */
    method NewCorrelation(consoleID: string, actorID: string, content: string, freshID: string, now: int) returns (id: Option<string>)
      requires Valid()
      modifies this
      ensures Valid() && history == old(history) + [New(freshID, consoleID, actorID, content, now)]
      ensures id == if old(|pending|) == maxInFlight then None else Some(freshID)
    {
      ghost var before := pending;
      if |pending| >= maxInFlight {
        id := None;
      } else {
        pending := pending[freshID := Pending(freshID, consoleID, actorID, now, content, "", false)];
        id := Some(freshID);
      }
      Record(New(freshID, consoleID, actorID, content, now), before);
    }

    method Complete(id: string)
      requires Valid()
      modifies this
      ensures Valid() && history == old(history) + [Op.Complete(id)]
    {
      ghost var before := pending;
      pending := pending - {id};
      Record(Op.Complete(id), before);
    }

    method Cancel(id: string)
      requires Valid()
      modifies this
      ensures Valid() && history == old(history) + [Op.Cancel(id)]
    {
      ghost var before := pending;
      if id in pending {
        pending := pending[id := pending[id].(cancelled := true)];
      }
      Record(Op.Cancel(id), before);
    }

    method AppendStreamed(id: string, content: string)
      requires Valid()
      modifies this
      ensures Valid() && history == old(history) + [Append(id, content)]
    {
      ghost var before := pending;
      if id in pending {
        var p := pending[id];
        pending := pending[id := p.(streamedContent := p.streamedContent + content)];
      }
      Record(Append(id, content), before);
    }

    method Clear()
      requires Valid()
      modifies this
      ensures Valid() && history == old(history) + [Op.Clear]
    {
      ghost var before := pending;
      pending := map[];
      Record(Op.Clear, before);
    }

    method GetPending(id: string) returns (p: Option<Pending>)
      ensures p.Some? <==> id in pending
      ensures p.Some? ==> p.value == pending[id]
    {
      if id in pending { return Some(pending[id]); }
      p := None;
    }

    /** The map is walked in an arbitrary order; ties are broken by it. */
    method GetActive() returns (oldest: Option<Pending>)
      ensures oldest.None? <==> pending == map[]
      ensures oldest.Some? ==>
                && (exists id | id in pending :: pending[id] == oldest.value)
                && forall id | id in pending :: pending[id].startedAt >= oldest.value.startedAt
    {
      oldest := None;
      var rest := pending.Keys;
      while rest != {}
        invariant rest <= pending.Keys
        invariant oldest.None? <==> rest == pending.Keys
        invariant oldest.Some? ==>
            && (exists id | id in pending :: pending[id] == oldest.value)
            && forall id | id in pending && id !in rest :: pending[id].startedAt >= oldest.value.startedAt
      {
        var id :| id in rest;
        rest := rest - {id};
        if oldest.None? || pending[id].startedAt < oldest.value.startedAt {
          oldest := Some(pending[id]);
        }
      }
      assert pending == map[] <==> pending.Keys == {};
    }

    /** Every entry exactly once, in an arbitrary order. */
    method ListPending() returns (list: seq<Pending>)
      ensures |list| == |pending| && exists ids: seq<string> :: Lists(pending, pending.Keys, ids, list)
    {
      list := [];
      ghost var ids: seq<string> := [];
      var rest := pending.Keys;
      while rest != {}
        invariant rest <= pending.Keys && |list| + |rest| == |pending.Keys|
        invariant Lists(pending, pending.Keys - rest, ids, list)
      {
        var id :| id in rest;
        rest := rest - {id};
        list, ids := list + [pending[id]], ids + [id];
      }
      assert pending.Keys - rest == pending.Keys;
    }

    method IsFull() returns (full: bool)
      ensures full <==> |pending| >= maxInFlight
    {
      full := |pending| >= maxInFlight;
    }
  }

  // ----- what any history leaves behind

  /** The operation at i created the pending entry of id: it was not refused, and nothing since
      has completed, cleared or recreated it. */
  ghost predicate BornAt(maxInFlight: nat, ops: seq<Op>, id: string, i: int) {
    0 <= i < |ops| && Creates(maxInFlight, ops, id, i) && forall j | i < j < |ops| :: !Ends(maxInFlight, ops, id, j)
  }

  ghost predicate Creates(maxInFlight: nat, ops: seq<Op>, id: string, i: int)
    requires 0 <= i < |ops|
  {
    ops[i].New? && ops[i].id == id && |Replay(maxInFlight, ops[..i])| < maxInFlight
  }

  ghost predicate Ends(maxInFlight: nat, ops: seq<Op>, id: string, j: int)
    requires 0 <= j < |ops|
  {
    ops[j] == Complete(id) || ops[j] == Clear || Creates(maxInFlight, ops, id, j)
  }

  /** The chunks appended to id from position i on, joined in order. */
  function Streamed(ops: seq<Op>, id: string, i: nat): string
    requires i <= |ops|
    decreases |ops| - i
  {
    if i == |ops| then ""
    else
      var last := ops[|ops| - 1];
      Streamed(ops[..|ops| - 1], id, i) + if last.Append? && last.id == id then last.chunk else ""
  }

  /** The entry that a creation at i has become by now. */
  ghost function EntryBorn(ops: seq<Op>, i: nat): Pending
    requires i < |ops| && ops[i].New?
  {
    var op := ops[i];
    Pending(op.id, op.consoleID, op.actorID, op.now, op.content, Streamed(ops, op.id, i + 1),
            exists j | i < j < |ops| :: ops[j] == Cancel(op.id))
  }

  lemma {:induction false} WithinLimit(maxInFlight: nat, ops: seq<Op>)
    ensures |Replay(maxInFlight, ops)| <= maxInFlight
  {
    if ops != [] {
      var before, op := Replay(maxInFlight, ops[..|ops| - 1]), ops[|ops| - 1];
      WithinLimit(maxInFlight, ops[..|ops| - 1]);
      var after := Apply(before, maxInFlight, op);
      match op
      case New(id, _, _, _, _) =>
        if |before| < maxInFlight {
          assert after.Keys == before.Keys + {id};
          KeysAtMostOneMore(before.Keys, id);
        }
      case Complete(id) =>
        assert after.Keys == before.Keys - {id};
        SubsetSize(after.Keys, before.Keys);
      case Cancel(id) => assert after.Keys == before.Keys;
      case Append(id, _) => assert after.Keys == before.Keys;
      case Clear =>
    }
  }

  lemma KeysAtMostOneMore(keys: set<string>, id: string)
    ensures |keys + {id}| <= |keys| + 1
  {
    if id in keys { assert keys + {id} == keys; }
  }

  /** One operation later an earlier birth stands unless the new operation ends it. */
  lemma BirthStep(maxInFlight: nat, ops: seq<Op>, id: string, i: nat)
    requires i < |ops| - 1
    ensures BornAt(maxInFlight, ops, id, i) <==>
              BornAt(maxInFlight, ops[..|ops| - 1], id, i) && !Ends(maxInFlight, ops, id, |ops| - 1)
  {
    var init, last := ops[..|ops| - 1], |ops| - 1;
    SamePrefix(maxInFlight, ops, id, i);
    forall j | i < j < last ensures Ends(maxInFlight, init, id, j) <==> Ends(maxInFlight, ops, id, j) {
      SamePrefix(maxInFlight, ops, id, j);
    }
  }

  lemma SamePrefix(maxInFlight: nat, ops: seq<Op>, id: string, j: nat)
    requires j < |ops| - 1
    ensures Creates(maxInFlight, ops[..|ops| - 1], id, j) <==> Creates(maxInFlight, ops, id, j)
    ensures Ends(maxInFlight, ops[..|ops| - 1], id, j) <==> Ends(maxInFlight, ops, id, j)
  {
    assert ops[..|ops| - 1][..j] == ops[..j];
  }

  lemma {:induction false} BornIsPending(maxInFlight: nat, ops: seq<Op>, id: string, i: int)
    requires BornAt(maxInFlight, ops, id, i)
    ensures id in Replay(maxInFlight, ops) && Replay(maxInFlight, ops)[id] == EntryBorn(ops, i)
  {
    var last := |ops| - 1;
    if i < last {
      BirthStep(maxInFlight, ops, id, i);
      BornIsPending(maxInFlight, ops[..last], id, i);
      EntryStep(ops, i);
      StepOfEntry(maxInFlight, ops, id);
    }
  }

  /** What the last operation does to an entry that it does not end. */
  lemma StepOfEntry(maxInFlight: nat, ops: seq<Op>, id: string)
    requires ops != [] && id in Replay(maxInFlight, ops[..|ops| - 1]) && !Ends(maxInFlight, ops, id, |ops| - 1)
    ensures var op := ops[|ops| - 1]; var before := Replay(maxInFlight, ops[..|ops| - 1])[id];
            && id in Replay(maxInFlight, ops)
            && Replay(maxInFlight, ops)[id] == before.(
              streamedContent := before.streamedContent + (if op.Append? && op.id == id then op.chunk else ""),
              cancelled := before.cancelled || op == Cancel(id))
  {
    var init, op := ops[..|ops| - 1], ops[|ops| - 1];
    ApplyToEntry(Replay(maxInFlight, init), maxInFlight, op, id);
  }

  lemma ApplyToEntry(pending: PendingMap, maxInFlight: nat, op: Op, id: string)
    requires id in pending && op != Complete(id) && op != Clear
    requires !(op.New? && op.id == id && |pending| < maxInFlight)
    ensures id in Apply(pending, maxInFlight, op)
    ensures Apply(pending, maxInFlight, op)[id] == pending[id].(
              streamedContent := pending[id].streamedContent + (if op.Append? && op.id == id then op.chunk else ""),
              cancelled := pending[id].cancelled || op == Cancel(id))
  {
    assert pending[id].streamedContent + "" == pending[id].streamedContent;
  }

  lemma {:induction false} PendingWasBorn(maxInFlight: nat, ops: seq<Op>, id: string) returns (i: int)
    requires id in Replay(maxInFlight, ops)
    ensures BornAt(maxInFlight, ops, id, i)
  {
    var last := |ops| - 1;
    if Creates(maxInFlight, ops, id, last) {
      i := last;
    } else {
      i := PendingWasBorn(maxInFlight, ops[..last], id);
      BirthStep(maxInFlight, ops, id, i);
    }
  }

  /** An id is pending exactly when some creation of it stands, and its entry is that creation
      with all chunks appended since, in order, and cancelled if a cancel came since. */
  lemma PendingIsHistory(maxInFlight: nat, ops: seq<Op>, id: string)
    ensures id in Replay(maxInFlight, ops) <==> exists i :: BornAt(maxInFlight, ops, id, i)
    ensures forall i | BornAt(maxInFlight, ops, id, i) :: Replay(maxInFlight, ops)[id] == EntryBorn(ops, i)
  {
    forall i | BornAt(maxInFlight, ops, id, i) ensures id in Replay(maxInFlight, ops) && Replay(maxInFlight, ops)[id] == EntryBorn(ops, i) {
      BornIsPending(maxInFlight, ops, id, i);
    }
    if id in Replay(maxInFlight, ops) {
      var i := PendingWasBorn(maxInFlight, ops, id);
    }
  }

  lemma EntryStep(ops: seq<Op>, i: nat)
    requires i < |ops| - 1 && ops[i].New?
    ensures var op := ops[|ops| - 1]; var before := EntryBorn(ops[..|ops| - 1], i);
            EntryBorn(ops, i) == before.(
              streamedContent := before.streamedContent + (if op.Append? && op.id == before.correlationID then op.chunk else ""),
              cancelled := before.cancelled || op == Cancel(before.correlationID))
  {
    var init := ops[..|ops| - 1];
    assert forall j | 0 <= j < |init| :: init[j] == ops[j];
  }
}
