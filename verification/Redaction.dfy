/**
 Redaction of event data (foxcular/redact.go): the event is cloned, then the clone's nested
 maps are rewritten in place while slices are rebuilt.
 */
module Redaction {
  import opened Options
  import opened Text
  import opened EventTree

  /** scrub replaces every match of the value patterns by the mask. */
  datatype Policy = Policy(enabled: bool, mask: string, sensitiveKeys: seq<string>, customKeys: seq<string>, scrub: string -> string)

  predicate Sensitive(p: Policy, key: string) {
    exists pattern | pattern in p.sensitiveKeys + p.customKeys :: Contains(ToLower(key), ToLower(pattern))
  }

  method IsSensitiveKey(p: Policy, key: string) returns (sensitive: bool)
    ensures sensitive <==> Sensitive(p, key)
  {
    var k := ToLower(key);
    var allKeys := p.sensitiveKeys + p.customKeys;
    for i := 0 to |allKeys|
      invariant forall pattern | pattern in allKeys[..i] :: !Contains(k, ToLower(pattern))
    {
      if Contains(k, ToLower(allKeys[i])) { return true; }
    }
    assert allKeys[..|allKeys|] == allKeys;
    sensitive := false;
  }

  function RedactString(p: Policy, s: string): string {
    if s == "" then s else p.scrub(s)
  }

  // ----- redaction as a function of the data

  /** The value under a key. */
  function RedactEntry(p: Policy, key: string, t: Tree): Tree
    decreases t
  {
    match t
    case TStr(s) => TStr(if Sensitive(p, key) then p.mask else RedactString(p, s))
    case TMap(entries) => TMap(map k | k in entries :: RedactEntry(p, k, entries[k]))
    case TNilSlice => TSlice([])
    case TSlice(items) => TSlice(seq(|items|, i requires 0 <= i < |items| => RedactItem(p, items[i])))
    case _ => t
  }

  /** The value inside a slice: no key, and a nil map comes back empty. */
  function RedactItem(p: Policy, t: Tree): Tree
    decreases t
  {
    match t
    case TStr(s) => TStr(RedactString(p, s))
    case TNilMap => TMap(map[])
    case TMap(entries) => TMap(map k | k in entries :: RedactEntry(p, k, entries[k]))
    case TNilSlice => TSlice([])
    case TSlice(items) => TSlice(seq(|items|, i requires 0 <= i < |items| => RedactItem(p, items[i])))
    case TPrim(_) => t
  }

  /** The whole Data; a nil Data stays nil. */
  function RedactData(p: Policy, t: Tree): Tree {
    if t.TMap? then RedactItem(p, t) else t
  }

  // ----- the program

  lemma ReplaceKid(m: MapObject, kids: map<string, Shape>, k: string, kid: Shape)
    requires k in kids && Separate(MapNode(m, kids)) && Separate(kid) && m !in Footprint(kid)
    requires forall j | j in kids && j != k :: Footprint(kids[j]) !! Footprint(kid)
    ensures Separate(MapNode(m, kids[k := kid]))
    ensures Footprint(MapNode(m, kids[k := kid])) <= Footprint(MapNode(m, kids)) + Footprint(kid)
    ensures Refs(kids[k := kid]) == Refs(kids)[k := Ref(kid)]
  {
    var more := kids[k := kid];
    assert forall j | j in kids && j != k :: more[j] == kids[j] && Footprint(kids[j]) <= Inner(MapNode(m, kids));
    assert more[k] == kid;
  }

  ghost function OthersFootprint(shape: Shape, k: string): set<object>
    requires shape.MapNode?
  {
    set j, o | j in shape.kids && j != k && o in Footprint(shape.kids[j]) :: o
  }

  /** Every kid but the one under k matches. */
  ghost predicate OthersMatch(shape: Shape, k: string)
    requires shape.MapNode?
    reads OthersFootprint(shape, k)
  {
    forall j | j in shape.kids && j != k :: Matches(shape.kids[j])
  }

  lemma ReplacedMatches(m: MapObject, kids: map<string, Shape>, k: string, kid: Shape)
    requires k in kids && Matches(kid) && m.entries == Refs(kids)[k := Ref(kid)]
    requires OthersMatch(MapNode(m, kids), k)
    ensures Matches(MapNode(m, kids[k := kid]))
  {
    assert Refs(kids[k := kid]) == Refs(kids)[k := Ref(kid)];
  }

  /** The kids of a separate map do not share objects with each other or with the map. */
  lemma KidsApart(shape: Shape, k: string)
    requires shape.MapNode? && k in shape.kids && Separate(shape)
    ensures Separate(shape.kids[k]) && Footprint(shape.kids[k]) <= Footprint(shape) && shape.m !in Footprint(shape.kids[k])
    ensures forall j | j in shape.kids && j != k :: Footprint(shape.kids[j]) !! Footprint(shape.kids[k])
    ensures forall j | j in shape.kids :: shape.m !in Footprint(shape.kids[j]) && Footprint(shape.kids[j]) <= Footprint(shape)
    ensures OthersFootprint(shape, k) <= Footprint(shape) - Footprint(shape.kids[k]) - {shape.m}
  {}

  lemma OthersHold(shape: Shape, k: string)
    requires shape.MapNode? && Matches(shape)
    ensures OthersMatch(shape, k)
  {}

  /** Another map object over the same kids. */
  lemma SameKids(shape: Shape, m: MapObject)
    requires shape.MapNode? && Matches(shape) && m.entries == shape.m.entries
    requires Separate(shape) && m !in Inner(shape)
    ensures Matches(MapNode(m, shape.kids)) && Separate(MapNode(m, shape.kids))
    ensures Inner(MapNode(m, shape.kids)) == Inner(shape) && TreeOf(MapNode(m, shape.kids)) == TreeOf(shape)
  {}

  lemma PartsApart(shape: Shape)
    requires shape.SliceNode? && Separate(shape)
    ensures forall i | 0 <= i < |shape.parts| ::
              Separate(shape.parts[i]) && shape.l !in Footprint(shape.parts[i]) && Footprint(shape.parts[i]) <= Footprint(shape)
    ensures forall i, j | 0 <= i < j < |shape.parts| :: Footprint(shape.parts[i]) !! Footprint(shape.parts[j])
  {}

  /** The new value of an entry; maps and other values stay in place. */
  method RedactChild(p: Policy, k: string, v: Any, ghost kid: Shape, ghost made: set<object>) returns (out: Any, ghost after: Shape, ghost more: set<object>)
    requires Matches(kid) && Separate(kid) && Ref(kid) == v && made == Footprint(kid)
    modifies made
    ensures Matches(after) && Separate(after) && Ref(after) == out && more == Footprint(after) && fresh(more - made)
    ensures TreeOf(after) == RedactEntry(p, k, TreeOf(kid))
    ensures v.MapRef? || v.Prim? ==> out == v
    decreases TreeOf(kid), 2
  {
    out, after, more := v, kid, made;
    match v {
      case Str(s) =>
        var sensitive := IsSensitiveKey(p, k);
        var masked := if sensitive then p.mask else RedactString(p, s);
        out, after, more := Str(masked), StrLeaf(masked), {};
      case MapRef(c) =>
        if c != null {
          after, more := RedactMap(p, c, kid, made);
        }
      case SliceRef(c) =>
        var r;
        r, after, more := RedactSlice(p, c, kid, made);
        out := SliceRef(r);
      case Prim(_) =>
    }
  }

  /** Rewrite one entry of m in place. */
  method RedactOne(p: Policy, m: MapObject, k: string, ghost before: Shape, ghost made: set<object>) returns (ghost after: Shape, ghost more: set<object>)
    requires Tracks(before, m, made) && k in before.kids
    modifies made
    ensures Tracks(after, m, more) && fresh(more - made) && after.kids.Keys == before.kids.Keys
    ensures TreeOf(after.kids[k]) == RedactEntry(p, k, TreeOf(before.kids[k]))
    ensures forall j | j in before.kids && j != k :: after.kids[j] == before.kids[j]
    decreases TreeOf(before.kids[k]), 3
  {
    KidsApart(before, k);
    KidHolds(before, k);
    OthersHold(before, k);
    var v := m.entries[k];
    ghost var kidMade := Footprint(before.kids[k]);
    ghost var others := OthersFootprint(before, k);
    assert others <= made && others !! kidMade && m !in others;
    var out, kid, objects := RedactChild(p, k, v, before.kids[k], kidMade);
    assert OthersMatch(before, k);
    if v.Str? || v.SliceRef? {
      m.entries := m.entries[k := out];
    }
    assert m.entries == Refs(before.kids)[k := out];
    KidReplaced(m, before, k, kid);
    after := MapNode(m, before.kids[k := kid]);
    more := Footprint(after);
  }

  lemma KidReplaced(m: MapObject, before: Shape, k: string, kid: Shape)
    requires before.MapNode? && before.m == m && k in before.kids && Separate(before)
    requires Matches(kid) && Separate(kid) && m !in Footprint(kid) && OthersFootprint(before, k) !! Footprint(kid)
    requires OthersMatch(before, k) && m.entries == Refs(before.kids)[k := Ref(kid)]
    ensures var after := MapNode(m, before.kids[k := kid]);
            Tracks(after, m, Footprint(after)) && Footprint(after) <= Footprint(before) + Footprint(kid)
  {
    forall j | j in before.kids && j != k ensures Footprint(before.kids[j]) <= OthersFootprint(before, k) {}
    ReplaceKid(m, before.kids, k, kid);
    ReplacedMatches(m, before.kids, k, kid);
  }

  /** Every entry of m, in an arbitrary order. */
  method RedactMap(p: Policy, m: MapObject, ghost before: Shape, ghost made: set<object>) returns (ghost after: Shape, ghost more: set<object>)
    requires Tracks(before, m, made)
    modifies made
    ensures Tracks(after, m, more) && fresh(more - made)
    ensures TreeOf(after) == RedactItem(p, TreeOf(before))
    decreases TreeOf(before), 1
  {
    after, more := before, made;
    var rest := m.entries.Keys;
    while rest != {}
      invariant Tracks(after, m, more) && fresh(more - made)
      invariant RedactedBut(p, rest, before, after)
    {
      var k :| k in rest;
      assert rest == (rest - {k}) + {k};
      rest := rest - {k};
      assert TreeOf(before).entries[k] == TreeOf(before.kids[k]);
      ghost var previous := after;
      after, more := RedactOne(p, m, k, after, more);
      RedactedOneMore(p, rest, k, before, previous, after);
    }
    RedactedKids(p, before, after);
  }

  /** Every entry is redacted except those under the keys in rest, which are as before. */
  ghost predicate RedactedBut(p: Policy, rest: set<string>, before: Shape, after: Shape) {
    && before.MapNode? && after.MapNode? && rest <= after.kids.Keys == before.kids.Keys
    && (forall k | k in rest :: after.kids[k] == before.kids[k])
    && (forall k | k in after.kids && k !in rest :: TreeOf(after.kids[k]) == RedactEntry(p, k, TreeOf(before.kids[k])))
  }

  lemma RedactedOneMore(p: Policy, rest: set<string>, k: string, before: Shape, previous: Shape, after: Shape)
    requires RedactedBut(p, rest + {k}, before, previous) && k !in rest
    requires after.MapNode? && after.kids.Keys == previous.kids.Keys
    requires TreeOf(after.kids[k]) == RedactEntry(p, k, TreeOf(previous.kids[k]))
    requires forall j | j in previous.kids && j != k :: after.kids[j] == previous.kids[j]
    ensures RedactedBut(p, rest, before, after)
  {}

  lemma RedactedKids(p: Policy, before: Shape, after: Shape)
    requires before.MapNode? && after.MapNode? && after.kids.Keys == before.kids.Keys
    requires forall k | k in after.kids :: TreeOf(after.kids[k]) == RedactEntry(p, k, TreeOf(before.kids[k]))
    ensures TreeOf(after) == RedactItem(p, TreeOf(before))
    ensures TreeOf(after) == RedactEntry(p, "", TreeOf(before))
  {
    var want := RedactItem(p, TreeOf(before)).entries;
    assert want.Keys == before.kids.Keys;
    assert forall k | k in want :: want[k] == TreeOf(after.kids[k]);
    assert TreeOf(after).entries == want;
  }

  /** One item of a slice.  A map is copied shallowly and the copy rewritten in place. */
  method RedactValue(p: Policy, v: Any, ghost src: Shape, ghost made: set<object>) returns (out: Any, ghost after: Shape, ghost more: set<object>)
    requires Matches(src) && Separate(src) && Ref(src) == v && made == Footprint(src)
    modifies made
    ensures Matches(after) && Separate(after) && Ref(after) == out && more == Footprint(after) && fresh(more - made)
    ensures TreeOf(after) == RedactItem(p, TreeOf(src))
    decreases TreeOf(src), 3
  {
    match v {
      case Str(s) =>
        out, after, more := Str(RedactString(p, s)), StrLeaf(RedactString(p, s)), {};
      case MapRef(c) =>
        var cp := new MapObject();
        after, more := MapNode(cp, map[]), {cp};
        if c != null {
          cp.entries := c.entries;
          SameKids(src, cp);
          after, more := RedactMap(p, cp, MapNode(cp, src.kids), {cp} + Inner(src));
        }
        out := MapRef(cp);
      case SliceRef(c) =>
        var r;
        r, after, more := RedactSlice(p, c, src, made);
        out := SliceRef(r);
      case Prim(_) =>
        out, after, more := v, src, {};
    }
  }

  /** A new slice with the redacted items; a nil slice gives an empty one. */
  method RedactSlice(p: Policy, l: SliceObject?, ghost before: Shape, ghost made: set<object>) returns (result: SliceObject, ghost after: Shape, ghost more: set<object>)
    requires Matches(before) && Separate(before) && Ref(before) == SliceRef(l) && made == Footprint(before)
    modifies made
    ensures Matches(after) && Separate(after) && Ref(after) == SliceRef(result) && more == Footprint(after) && fresh(more - made)
    ensures TreeOf(after) == RedactItem(p, TreeOf(before))
    decreases TreeOf(before), 1
  {
    var n := if l == null then 0 else |l.items|;
    result := new SliceObject(n);
    ghost var parts: seq<Shape> := [];
    more := {result};
    NothingFilled(result, n);
    if l != null { AllPending(before, made, result); }
    for i := 0 to n
      invariant l != null ==> Pending(before, i, more)
      invariant Fills(parts, result, i, n, more) && fresh(more - made) && result !in made
      invariant forall j | 0 <= j < i :: TreeOf(parts[j]) == RedactItem(p, TreeOf(before.parts[j]))
    {
      assert TreeOf(before).items[i] == TreeOf(before.parts[i]);
      parts, more := RedactItemAt(p, l, result, i, n, parts, more, before, made);
    }
    AllFilled(parts, result, n, more);
    after := SliceNode(result, parts);
  }

  /** The parts from i on are as they were and share nothing with the objects made so far. */
  ghost predicate Pending(before: Shape, i: nat, made: set<object>)
    reads Own(before), Inner(before)
  {
    && before.SliceNode? && i <= |before.parts| && before.l !in made && before.l.items == PartRefs(before.parts)
    && forall j | i <= j < |before.parts| :: Matches(before.parts[j]) && Footprint(before.parts[j]) !! made
  }

  lemma AllPending(before: Shape, objects: set<object>, result: SliceObject)
    requires before.SliceNode? && Matches(before) && Footprint(before) <= objects && result !in objects
    ensures Pending(before, 0, {result})
  {}

  method RedactItemAt(p: Policy, l: SliceObject, result: SliceObject, i: nat, n: nat, ghost parts: seq<Shape>, ghost made: set<object>, ghost before: Shape, ghost objects: set<object>)
    returns (ghost after: seq<Shape>, ghost more: set<object>)
    requires Fills(parts, result, i, n, made) && i < n == |l.items| && result !in objects
    requires Pending(before, i, made) && Separate(before) && Ref(before) == SliceRef(l) && objects == Footprint(before)
    modifies result, Footprint(before.parts[i])
    ensures Fills(after, result, i + 1, n, more) && fresh(more - made - objects) && Pending(before, i + 1, more)
    ensures after[..i] == parts && TreeOf(after[i]) == RedactItem(p, TreeOf(before.parts[i]))
    decreases TreeOf(before.parts[i]), 4
  {
    PartsApart(before);
    ghost var srcMade := Footprint(before.parts[i]);
    var value, part, partMade := RedactValue(p, l.items[i], before.parts[i], srcMade);
    after, more := AddItem(result, i, n, value, parts, made, part);
  }

  /** A disabled policy returns the event itself.  Otherwise the result is a new event over fresh
      objects that form a tree, holding the redacted data; no object that existed before is
      written, so the original event and everything it reaches stay as they were. */
  method RedactEvent(p: Policy, event: EventRecord?, ghost src: Shape, ghost objects: set<object>)
    returns (redacted: EventRecord?, ghost shape: Shape, ghost made: set<object>)
    requires event != null ==> Matches(src) && Ref(src) == MapRef(event.data) && Footprint(src) <= objects
    ensures !p.enabled || event == null ==> redacted == event
    ensures p.enabled && event != null ==>
              && redacted != null && fresh(redacted) && redacted.rest == event.rest
              && redacted.message == (if event.message == "" then "" else p.scrub(event.message))
              && redacted.errorMessage == (if event.errorMessage == "" then "" else p.scrub(event.errorMessage))
              && Ref(shape) == MapRef(redacted.data) && Matches(shape) && Separate(shape)
              && made == Footprint(shape) && fresh(made)
              && TreeOf(shape) == RedactData(p, TreeOf(src))
  {
    if !p.enabled || event == null { return event, src, {}; }
    var clone;
    clone, shape, made := Clone(event, src, objects);
    redacted := clone;
    clone.errorMessage := RedactString(p, clone.errorMessage);
    clone.message := RedactString(p, clone.message);
    if clone.data != null {
      shape, made := RedactMap(p, clone.data, shape, made);
    }
  }

  // ----- what redaction does at every place of the data

  /** The key directly above the end of a path that starts under the given key. */
  function LastKey(path: seq<Step>, above: Option<string>): Option<string> {
    if path == [] then above
    else LastKey(path[1..], match path[0] case Key(k) => Some(k) case At(_) => None)
  }

  function RedactUnder(p: Policy, above: Option<string>, t: Tree): Tree {
    match above
    case Some(key) => RedactEntry(p, key, t)
    case None => RedactItem(p, t)
  }

  /** A string directly under a sensitive key is masked, any other string scrubbed; other values
      and the keys and lengths of containers stay; a nil slice, and a nil map inside a slice,
      come back empty. */
  ghost predicate RedactedTo(p: Policy, above: Option<string>, before: Tree, after: Tree) {
    match before
    case TStr(s) => after == TStr(if above.Some? && Sensitive(p, above.value) then p.mask else RedactString(p, s))
    case TPrim(_) => after == before
    case TMap(entries) => after.TMap? && after.entries.Keys == entries.Keys
    case TSlice(items) => after.TSlice? && |after.items| == |items|
    case TNilMap => after == if above.Some? then TNilMap else TMap(map[])
    case TNilSlice => after == TSlice([])
  }

  /** Redaction keeps every place of the data and does to each exactly what its kind and the key
      directly above it ask for. */
  lemma {:induction false} RedactedAtEveryPlace(p: Policy, above: Option<string>, t: Tree, path: seq<Step>)
    ensures Find(t, path).None? <==> Find(RedactUnder(p, above, t), path).None?
    ensures Find(t, path).Some? ==> RedactedTo(p, LastKey(path, above), Find(t, path).value, Find(RedactUnder(p, above, t), path).value)
    decreases |path|
  {
    if path != [] {
      var r := RedactUnder(p, above, t);
      match path[0] {
        case Key(k) =>
          if t.TMap? && k in t.entries {
            assert r.entries[k] == RedactUnder(p, Some(k), t.entries[k]);
            RedactedAtEveryPlace(p, Some(k), t.entries[k], path[1..]);
          }
        case At(i) =>
          if t.TSlice? && i < |t.items| {
            assert r.items[i] == RedactUnder(p, None, t.items[i]);
            RedactedAtEveryPlace(p, None, t.items[i], path[1..]);
          }
      }
    }
  }

  /** The path ends directly under a key in which some configured pattern occurs, ignoring case. */
  ghost predicate UnderSensitiveKey(p: Policy, path: seq<Step>) {
    && path != [] && path[|path| - 1].Key?
    && exists pattern | pattern in p.sensitiveKeys + p.customKeys :: OccursIgnoringCase(path[|path| - 1].k, pattern)
  }

  /** What a redacted event holds at the end of the path, where the original holds before. */
  ghost predicate RedactedAt(p: Policy, path: seq<Step>, before: Tree, after: Tree) {
    match before
    case TStr(s) => after == TStr(if UnderSensitiveKey(p, path) then p.mask else if s == "" then "" else p.scrub(s))
    case TPrim(_) => after == before
    case TMap(entries) => after.TMap? && after.entries.Keys == entries.Keys
    case TSlice(items) => after.TSlice? && |after.items| == |items|
    case TNilMap => after == if path == [] || path[|path| - 1].Key? then TNilMap else TMap(map[])
    case TNilSlice => after == TSlice([])
  }

  lemma SensitiveIgnoresCase(p: Policy, key: string)
    ensures Sensitive(p, key) <==> exists pattern | pattern in p.sensitiveKeys + p.customKeys :: OccursIgnoringCase(key, pattern)
  {
    forall pattern ensures Contains(ToLower(key), ToLower(pattern)) <==> OccursIgnoringCase(key, pattern) {
      ContainsIgnoringCase(key, pattern);
    }
  }

  lemma {:induction false} LastKeyIsLast(path: seq<Step>, above: Option<string>)
    requires path != []
    ensures LastKey(path, above) == if path[|path| - 1].Key? then Some(path[|path| - 1].k) else None
    decreases |path|
  {
    if |path| > 1 {
      LastKeyIsLast(path[1..], match path[0] case Key(k) => Some(k) case At(_) => None);
    }
  }

  /** The Data of a redacted event, place by place from its root: it has exactly the places of the
      original, a string under a sensitive key is the mask there, and everything else is as
      RedactedAt says. */
  lemma RedactedDataAtEveryPlace(p: Policy, t: Tree, path: seq<Step>)
    requires t.TMap? || t.TNilMap?
    ensures Find(t, path).None? <==> Find(RedactData(p, t), path).None?
    ensures Find(t, path).Some? ==> RedactedAt(p, path, Find(t, path).value, Find(RedactData(p, t), path).value)
  {
    if t.TMap? && path != [] && path[0].Key? && path[0].k in t.entries {
      var k := path[0].k;
      assert RedactData(p, t).entries[k] == RedactUnder(p, Some(k), t.entries[k]);
      RedactedAtEveryPlace(p, Some(k), t.entries[k], path[1..]);
      LastKeyIsLast(path, None);
      SensitiveIgnoresCase(p, if path[|path| - 1].Key? then path[|path| - 1].k else "");
      assert LastKey(path, None) == LastKey(path[1..], Some(k));
    }
  }

  /** Against the field comment in foxcular/redact.go: the value of a sensitive key is masked
      only when it is a string; a secret in a list under that key is merely scrubbed. */
  lemma MaskedIffString(p: Policy, key: string, t: Tree)
    requires Sensitive(p, key)
    ensures RedactEntry(p, key, t) == TStr(p.mask) <==> t.TStr?
    ensures t == TSlice([TStr("hunter2")]) && p.scrub("hunter2") == "hunter2" ==> RedactEntry(p, key, t) == t
  {
    if t == TSlice([TStr("hunter2")]) && p.scrub("hunter2") == "hunter2" {
      assert RedactEntry(p, key, t).items == [RedactItem(p, TStr("hunter2"))];
    }
  }
}
