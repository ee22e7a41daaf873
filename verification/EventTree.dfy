/**
 Nested event data on the heap (foxcular/event.go): maps and slices that hold strings,
 other values, and further maps and slices, possibly shared; and the deep copy that turns
 them into a tree of fresh objects.
 */
module EventTree {
  import opened Options

  /** A Data value.  Prim stands for every value that is neither string nor container. */
  datatype Any = Str(s: string) | Prim(p: int) | MapRef(m: MapObject?) | SliceRef(l: SliceObject?)

  class MapObject {
    var entries: map<string, Any>

    constructor ()
      ensures entries == map[]
    {
      entries := map[];
    }
  }

  class SliceObject {
    var items: seq<Any>

    /** make([]any, n) */
    constructor (n: nat)
      ensures |items| == n
    {
      items := seq(n, _ => Prim(0));
    }
  }

  /** What the data means, as a value. */
  datatype Tree =
    | TStr(s: string) | TPrim(p: int)
    | TNilMap | TMap(entries: map<string, Tree>)
    | TNilSlice | TSlice(items: seq<Tree>)

  /** The objects behind a value: which map or slice stands at which place. */
  datatype Shape =
    | StrLeaf(s: string) | PrimLeaf(p: int)
    | NilMap | MapNode(m: MapObject, kids: map<string, Shape>)
    | NilSlice | SliceNode(l: SliceObject, parts: seq<Shape>)

  ghost function Ref(shape: Shape): Any {
    match shape
    case StrLeaf(s) => Str(s)
    case PrimLeaf(p) => Prim(p)
    case NilMap => MapRef(null)
    case MapNode(m, _) => MapRef(m)
    case NilSlice => SliceRef(null)
    case SliceNode(l, _) => SliceRef(l)
  }

  ghost function TreeOf(shape: Shape): Tree {
    match shape
    case StrLeaf(s) => TStr(s)
    case PrimLeaf(p) => TPrim(p)
    case NilMap => TNilMap
    case MapNode(_, kids) => TMap(map k | k in kids :: TreeOf(kids[k]))
    case NilSlice => TNilSlice
    case SliceNode(_, parts) => TSlice(seq(|parts|, i requires 0 <= i < |parts| => TreeOf(parts[i])))
  }

  ghost function Own(shape: Shape): set<object> {
    match shape
    case MapNode(m, _) => {m}
    case SliceNode(l, _) => {l}
    case _ => {}
  }

  /** The objects below the shape's own. */
  ghost function Inner(shape: Shape): set<object>
    decreases shape, 0
  {
    match shape
    case MapNode(_, kids) => set k, o | k in kids && o in Footprint(kids[k]) :: o
    case SliceNode(_, parts) => set i, o | 0 <= i < |parts| && o in Footprint(parts[i]) :: o
    case _ => {}
  }

  ghost function Footprint(shape: Shape): set<object>
    decreases shape, 1
  {
    Own(shape) + Inner(shape)
  }

  /** No object stands at two places: a tree. */
  ghost predicate Separate(shape: Shape)
    decreases shape, 1
  {
    Own(shape) !! Inner(shape) && SeparateBelow(shape)
  }

  ghost predicate SeparateBelow(shape: Shape)
    decreases shape, 0
  {
    match shape
    case MapNode(_, kids) =>
      && (forall k | k in kids :: Separate(kids[k]))
      && (forall j, k | j in kids && k in kids && j != k :: Footprint(kids[j]) !! Footprint(kids[k]))
    case SliceNode(_, parts) =>
      && (forall i | 0 <= i < |parts| :: Separate(parts[i]))
      && (forall i, j | 0 <= i < j < |parts| :: Footprint(parts[i]) !! Footprint(parts[j]))
    case _ => true
  }

  /** The heap holds what the shape says. */
  ghost predicate Matches(shape: Shape)
    reads Footprint(shape)
    decreases shape, 1
  {
    MatchesBelow(shape) && Holds(shape)
  }

  ghost predicate Holds(shape: Shape)
    reads Own(shape)
  {
    match shape
    case MapNode(m, kids) => m.entries == Refs(kids)
    case SliceNode(l, parts) => l.items == PartRefs(parts)
    case _ => true
  }

  ghost predicate MatchesBelow(shape: Shape)
    reads Inner(shape)
    decreases shape, 0
  {
    match shape
    case MapNode(_, kids) => forall k | k in kids :: Matches(kids[k])
    case SliceNode(_, parts) => forall i | 0 <= i < |parts| :: Matches(parts[i])
    case _ => true
  }

  ghost function Refs(kids: map<string, Shape>): map<string, Any> {
    map k | k in kids :: Ref(kids[k])
  }

  ghost function PartRefs(parts: seq<Shape>): seq<Any> {
    seq(|parts|, i requires 0 <= i < |parts| => Ref(parts[i]))
  }

  // ----- the meaning of a tree, read off the heap

  datatype Step = Key(k: string) | At(i: nat)

  /** at is what stands at the end of the path from v, by way of the objects given. */
  ghost predicate Stands(v: Any, path: seq<Step>, at: Any, objects: set<object>)
    reads objects
    decreases |path|
  {
    if path == [] then v == at
    else
      match path[0]
      case Key(k) => v.MapRef? && v.m != null && v.m in objects && k in v.m.entries && Stands(v.m.entries[k], path[1..], at, objects)
      case At(i) => v.SliceRef? && v.l != null && v.l in objects && i < |v.l.items| && Stands(v.l.items[i], path[1..], at, objects)
  }

  /** What stands at the end of the path in a tree. */
  function Find(t: Tree, path: seq<Step>): Option<Tree> {
    if path == [] then Some(t)
    else
      match path[0]
      case Key(k) => if t.TMap? && k in t.entries then Find(t.entries[k], path[1..]) else None
      case At(i) => if t.TSlice? && i < |t.items| then Find(t.items[i], path[1..]) else None
  }

  /** The value at a place in the heap and the tree there agree: strings and other values are the
      same, nil is nil, and containers have the same keys or length. */
  ghost predicate Agrees(at: Any, t: Tree, objects: set<object>)
    reads objects
  {
    match at
    case Str(s) => t == TStr(s)
    case Prim(p) => t == TPrim(p)
    case MapRef(m) => if m == null then t.TNilMap? else m in objects && t.TMap? && t.entries.Keys == m.entries.Keys
    case SliceRef(l) => if l == null then t.TNilSlice? else l in objects && t.TSlice? && |t.items| == |l.items|
  }

  lemma {:induction false} TreeIsReadOffHeap(shape: Shape, path: seq<Step>, objects: set<object>) returns (at: Any)
    requires Matches(shape) && Footprint(shape) <= objects
    ensures Find(TreeOf(shape), path).Some? ==> Stands(Ref(shape), path, at, objects) && Agrees(at, Find(TreeOf(shape), path).value, objects)
    ensures Find(TreeOf(shape), path).None? ==> forall v :: !Stands(Ref(shape), path, v, objects)
    decreases |path|
  {
    at := Ref(shape);
    if path != [] {
      BelowWithin(shape, objects);
      match path[0] {
        case Key(k) =>
          if shape.MapNode? && k in shape.kids {
            KidHolds(shape, k);
            at := TreeIsReadOffHeap(shape.kids[k], path[1..], objects);
          }
        case At(i) =>
          if shape.SliceNode? && i < |shape.parts| {
            PartHolds(shape, i);
            at := TreeIsReadOffHeap(shape.parts[i], path[1..], objects);
          }
      }
    }
  }

  // ----- deep copy

  /** objects bounds the source's objects; made are the copy's objects. */
  method DeepCopyValue(v: Any, ghost src: Shape, ghost objects: set<object>) returns (copy: Any, ghost shape: Shape, ghost made: set<object>)
    requires Matches(src) && Ref(src) == v && Footprint(src) <= objects
    ensures Ref(shape) == copy && TreeOf(shape) == TreeOf(src)
    ensures Matches(shape) && Separate(shape) && made == Footprint(shape) && fresh(made)
    decreases src, 2
  {
    match v {
      case MapRef(m) =>
        var c;
        c, shape, made := DeepCopyMap(m, src, objects);
        copy := MapRef(c);
      case SliceRef(l) =>
        var c;
        c, shape, made := DeepCopySlice(l, src, objects);
        copy := SliceRef(c);
      case _ =>
        copy, shape, made := v, src, {};
    }
  }

  lemma BelowWithin(src: Shape, objects: set<object>)
    requires Footprint(src) <= objects
    ensures src.MapNode? ==> forall k | k in src.kids :: Footprint(src.kids[k]) <= objects
    ensures src.SliceNode? ==> forall i | 0 <= i < |src.parts| :: Footprint(src.parts[i]) <= objects
  {}

  /** Keys are visited in an arbitrary order, as Go walks a map. */
  method DeepCopyMap(m: MapObject?, ghost src: Shape, ghost objects: set<object>) returns (copy: MapObject?, ghost shape: Shape, ghost made: set<object>)
    requires Matches(src) && Ref(src) == MapRef(m) && Footprint(src) <= objects
    ensures Ref(shape) == MapRef(copy) && TreeOf(shape) == TreeOf(src)
    ensures Matches(shape) && Separate(shape) && made == Footprint(shape) && fresh(made)
    decreases src, 1
  {
    if m == null { return null, NilMap, {}; }
    var cp := new MapObject();
    shape, made := MapNode(cp, map[]), {cp};
    NothingCopied(cp, src);
    var rest := m.entries.Keys;
    while rest != {}
      invariant Matches(src) && cp !in objects
      invariant Tracks(shape, cp, made) && fresh(made)
      invariant CopiedBut(rest, shape, src)
    {
      var k :| k in rest;
      ghost var before := shape;
      shape, made := CopyEntry(m, cp, k, shape, made, src, objects);
      CopiedOneMore(rest, k, before, shape, src);
      rest := rest - {k};
    }
    SameMapTrees(shape, src);
    copy := cp;
  }

  /** Every entry of src is copied except those under the keys in rest. */
  ghost predicate CopiedBut(rest: set<string>, shape: Shape, src: Shape) {
    && shape.MapNode? && src.MapNode? && rest <= src.kids.Keys && shape.kids.Keys == src.kids.Keys - rest
    && forall k | k in shape.kids :: TreeOf(shape.kids[k]) == TreeOf(src.kids[k])
  }

  lemma NothingCopied(m: MapObject, src: Shape)
    requires src.MapNode? && Matches(src) && m.entries == map[]
    ensures CopiedBut(src.m.entries.Keys, MapNode(m, map[]), src) && Tracks(MapNode(m, map[]), m, {m})
  {}

  lemma CopiedOneMore(rest: set<string>, k: string, before: Shape, after: Shape, src: Shape)
    requires CopiedBut(rest, before, src) && k in rest && after.MapNode?
    requires after.kids.Keys == before.kids.Keys + {k} && TreeOf(after.kids[k]) == TreeOf(src.kids[k])
    requires forall j | j in before.kids :: after.kids[j] == before.kids[j]
    ensures CopiedBut(rest - {k}, after, src)
  {}

  lemma SameMapTrees(a: Shape, b: Shape)
    requires a.MapNode? && b.MapNode? && a.kids.Keys == b.kids.Keys
    requires forall k | k in a.kids :: TreeOf(a.kids[k]) == TreeOf(b.kids[k])
    ensures TreeOf(a) == TreeOf(b)
  {}

  lemma SameSliceTrees(a: Shape, b: Shape)
    requires a.SliceNode? && b.SliceNode? && |a.parts| == |b.parts|
    requires forall i | 0 <= i < |a.parts| :: TreeOf(a.parts[i]) == TreeOf(b.parts[i])
    ensures TreeOf(a) == TreeOf(b)
  {}

  /** The shape of the map object m, with its objects. */
  ghost predicate Tracks(shape: Shape, m: MapObject, made: set<object>)
    reads Footprint(shape)
  {
    shape.MapNode? && shape.m == m && Matches(shape) && Separate(shape) && made == Footprint(shape)
  }

  lemma KidHolds(shape: Shape, k: string)
    requires shape.MapNode? && k in shape.kids && Matches(shape)
    ensures k in shape.m.entries && shape.m.entries[k] == Ref(shape.kids[k]) && Matches(shape.kids[k])
  {}

  method CopyEntry(m: MapObject, cp: MapObject, k: string, ghost before: Shape, ghost made: set<object>, ghost src: Shape, ghost objects: set<object>)
    returns (ghost after: Shape, ghost more: set<object>)
    requires Tracks(before, cp, made) && k !in before.kids && cp !in objects
    requires Matches(src) && Ref(src) == MapRef(m) && k in src.kids && Footprint(src) <= objects
    modifies cp
    ensures Tracks(after, cp, more) && fresh(more - made) && after.kids.Keys == before.kids.Keys + {k}
    ensures TreeOf(after.kids[k]) == TreeOf(src.kids[k]) && forall j | j in before.kids :: after.kids[j] == before.kids[j]
    decreases src, 0
  {
    KidHolds(src, k);
    BelowWithin(src, objects);
    var value, kid, kidMade := DeepCopyValue(m.entries[k], src.kids[k], objects);
    after, more := AddEntry(cp, k, value, before, made, kid);
  }

  /** A new entry whose objects are its own. */
  method AddEntry(m: MapObject, k: string, value: Any, ghost before: Shape, ghost made: set<object>, ghost kid: Shape)
    returns (ghost after: Shape, ghost more: set<object>)
    requires Tracks(before, m, made) && k !in before.kids
    requires Matches(kid) && Separate(kid) && Ref(kid) == value && Footprint(kid) !! made
    modifies m
    ensures Tracks(after, m, more) && after == MapNode(m, before.kids[k := kid]) && more == made + Footprint(kid)
  {
    AddKid(m, before.kids, k, kid);
    m.entries := m.entries[k := value];
    KidMatches(m, before.kids, k, kid);
    after, more := MapNode(m, before.kids[k := kid]), made + Footprint(kid);
  }

  lemma KidMatches(m: MapObject, kids: map<string, Shape>, k: string, kid: Shape)
    requires MatchesBelow(MapNode(m, kids)) && Matches(kid) && m.entries == Refs(kids)[k := Ref(kid)]
    ensures Matches(MapNode(m, kids[k := kid]))
  {
    assert Refs(kids[k := kid]) == Refs(kids)[k := Ref(kid)];
  }

  /** A map shape with one more, separate, kid. */
  lemma AddKid(m: MapObject, kids: map<string, Shape>, k: string, kid: Shape)
    requires k !in kids && Separate(MapNode(m, kids)) && Separate(kid) && Footprint(MapNode(m, kids)) !! Footprint(kid)
    ensures Separate(MapNode(m, kids[k := kid]))
    ensures Inner(MapNode(m, kids[k := kid])) == Inner(MapNode(m, kids)) + Footprint(kid)
    ensures Refs(kids[k := kid]) == Refs(kids)[k := Ref(kid)]
  {
    var more := kids[k := kid];
    InnerWithKid(m, kids, k, kid);
    assert forall j | j in kids :: more[j] == kids[j];
    KidsWithKid(kids, k, kid, Inner(MapNode(m, kids)));
  }

  lemma KidsWithKid(kids: map<string, Shape>, k: string, kid: Shape, inner: set<object>)
    requires forall i, j | i in kids && j in kids && i != j :: Footprint(kids[i]) !! Footprint(kids[j])
    requires forall j | j in kids :: Footprint(kids[j]) <= inner
    requires inner !! Footprint(kid)
    ensures var more := kids[k := kid];
            forall i, j | i in more && j in more && i != j :: Footprint(more[i]) !! Footprint(more[j])
  {}

  lemma InnerWithKid(m: MapObject, kids: map<string, Shape>, k: string, kid: Shape)
    requires k !in kids
    ensures Inner(MapNode(m, kids[k := kid])) == Inner(MapNode(m, kids)) + Footprint(kid)
  {
    var more := kids[k := kid];
    forall o | o in Footprint(kid) ensures o in Inner(MapNode(m, more)) {
      assert more[k] == kid;
    }
    forall o | o in Inner(MapNode(m, kids)) ensures o in Inner(MapNode(m, more)) {
      var j :| j in kids && o in Footprint(kids[j]);
      assert o in Footprint(more[j]);
    }
  }

  method DeepCopySlice(l: SliceObject?, ghost src: Shape, ghost objects: set<object>) returns (copy: SliceObject?, ghost shape: Shape, ghost made: set<object>)
    requires Matches(src) && Ref(src) == SliceRef(l) && Footprint(src) <= objects
    ensures Ref(shape) == SliceRef(copy) && TreeOf(shape) == TreeOf(src)
    ensures Matches(shape) && Separate(shape) && made == Footprint(shape) && fresh(made)
    decreases src, 1
  {
    if l == null { return null, NilSlice, {}; }
    var n := |l.items|;
    var cp := new SliceObject(n);
    ghost var parts: seq<Shape> := [];
    made := {cp};
    NothingFilled(cp, n);
    for i := 0 to n
      invariant Matches(src) && |l.items| == n == |src.parts| && cp !in objects
      invariant Fills(parts, cp, i, n, made) && fresh(made)
      invariant forall j | 0 <= j < i :: TreeOf(parts[j]) == TreeOf(src.parts[j])
    {
      parts, made := CopyItem(l, cp, i, n, parts, made, src, objects);
    }
    AllFilled(parts, cp, n, made);
    copy, shape := cp, SliceNode(cp, parts);
    SameSliceTrees(shape, src);
  }

  /** The first i of the n items of l are done. */
  ghost predicate Fills(parts: seq<Shape>, l: SliceObject, i: nat, n: nat, made: set<object>)
    reads l, Inner(SliceNode(l, parts))
  {
    && |parts| == i <= n == |l.items| && l.items[..i] == PartRefs(parts)
    && MatchesBelow(SliceNode(l, parts)) && Separate(SliceNode(l, parts)) && made == Footprint(SliceNode(l, parts))
  }

  lemma NothingFilled(l: SliceObject, n: nat)
    requires |l.items| == n
    ensures Fills([], l, 0, n, {l})
  {}

  lemma AllFilled(parts: seq<Shape>, l: SliceObject, n: nat, made: set<object>)
    requires Fills(parts, l, n, n, made)
    ensures Matches(SliceNode(l, parts)) && Separate(SliceNode(l, parts)) && made == Footprint(SliceNode(l, parts))
  {
    assert l.items[..n] == l.items;
  }

  lemma PartHolds(shape: Shape, i: nat)
    requires shape.SliceNode? && i < |shape.parts| && Matches(shape)
    ensures |shape.l.items| == |shape.parts| && shape.l.items[i] == Ref(shape.parts[i]) && Matches(shape.parts[i])
  {}

  method CopyItem(l: SliceObject, cp: SliceObject, i: nat, n: nat, ghost before: seq<Shape>, ghost made: set<object>, ghost src: Shape, ghost objects: set<object>)
    returns (ghost after: seq<Shape>, ghost more: set<object>)
    requires Fills(before, cp, i, n, made) && i < n == |l.items| && cp !in objects
    requires Matches(src) && Ref(src) == SliceRef(l) && n == |src.parts| && Footprint(src) <= objects
    modifies cp
    ensures Fills(after, cp, i + 1, n, more) && fresh(more - made)
    ensures TreeOf(after[i]) == TreeOf(src.parts[i]) && after[..i] == before
    decreases src, 0
  {
    PartHolds(src, i);
    BelowWithin(src, objects);
    var value, part, partMade := DeepCopyValue(l.items[i], src.parts[i], objects);
    after, more := AddItem(cp, i, n, value, before, made, part);
  }

  /** The next item, whose objects are its own. */
  method AddItem(l: SliceObject, i: nat, n: nat, value: Any, ghost before: seq<Shape>, ghost made: set<object>, ghost part: Shape)
    returns (ghost after: seq<Shape>, ghost more: set<object>)
    requires Fills(before, l, i, n, made) && i < n
    requires Matches(part) && Separate(part) && Ref(part) == value && Footprint(part) !! made
    modifies l
    ensures Fills(after, l, i + 1, n, more) && after == before + [part] && more == made + Footprint(part)
  {
    AddPart(l, before, part);
    l.items := l.items[i := value];
    PartMatches(l, before, part);
    after, more := before + [part], made + Footprint(part);
  }

  lemma PartMatches(l: SliceObject, parts: seq<Shape>, part: Shape)
    requires MatchesBelow(SliceNode(l, parts)) && Matches(part)
    ensures MatchesBelow(SliceNode(l, parts + [part]))
  {}

  /** A slice shape with one more, separate, part. */
  lemma AddPart(l: SliceObject, parts: seq<Shape>, part: Shape)
    requires Separate(SliceNode(l, parts)) && Separate(part) && Footprint(SliceNode(l, parts)) !! Footprint(part)
    ensures Separate(SliceNode(l, parts + [part]))
    ensures Inner(SliceNode(l, parts + [part])) == Inner(SliceNode(l, parts)) + Footprint(part)
    ensures PartRefs(parts + [part]) == PartRefs(parts) + [Ref(part)]
  {
    var more := parts + [part];
    InnerWithPart(l, parts, part);
    PartsWithPart(parts, part, Inner(SliceNode(l, parts)));
    forall i | 0 <= i < |more| ensures Separate(more[i]) {
      assert i < |parts| ==> more[i] == parts[i];
    }
  }

  lemma PartsWithPart(parts: seq<Shape>, part: Shape, inner: set<object>)
    requires forall i, j | 0 <= i < j < |parts| :: Footprint(parts[i]) !! Footprint(parts[j])
    requires forall i | 0 <= i < |parts| :: Footprint(parts[i]) <= inner
    requires inner !! Footprint(part)
    ensures forall i, j | 0 <= i < j < |parts + [part]| :: Footprint((parts + [part])[i]) !! Footprint((parts + [part])[j])
  {
    var more := parts + [part];
    forall i, j | 0 <= i < j < |more| ensures Footprint(more[i]) !! Footprint(more[j]) {
      assert more[i] == parts[i];
      assert j < |parts| ==> more[j] == parts[j];
    }
  }

  lemma InnerWithPart(l: SliceObject, parts: seq<Shape>, part: Shape)
    ensures Inner(SliceNode(l, parts + [part])) == Inner(SliceNode(l, parts)) + Footprint(part)
  {
    var more := parts + [part];
    forall o | o in Footprint(part) ensures o in Inner(SliceNode(l, more)) {
      assert more[|parts|] == part;
    }
    forall o | o in Inner(SliceNode(l, parts)) ensures o in Inner(SliceNode(l, more)) {
      var j :| 0 <= j < |parts| && o in Footprint(parts[j]);
      assert o in Footprint(more[j]);
    }
    forall o | o in Inner(SliceNode(l, more)) ensures o in Inner(SliceNode(l, parts)) + Footprint(part) {
      var j :| 0 <= j < |more| && o in Footprint(more[j]);
      assert j < |parts| ==> more[j] == parts[j];
    }
  }

  // ----- events

  /** rest stands for the fields that neither cloning nor redaction touches. */
  class EventRecord {
    var message: string
    var errorMessage: string
    const rest: int
    var data: MapObject?

    constructor (message: string, errorMessage: string, rest: int, data: MapObject?)
      ensures this.message == message && this.errorMessage == errorMessage && this.rest == rest && this.data == data
    {
      this.message, this.errorMessage, this.rest, this.data := message, errorMessage, rest, data;
    }
  }

  /** A copy of the record over a deep copy of its data; src is the shape of the original's.
      The clone of nil is nil. */
  method Clone(e: EventRecord?, ghost src: Shape, ghost objects: set<object>) returns (clone: EventRecord?, ghost shape: Shape, ghost made: set<object>)
    requires e != null ==> Matches(src) && Ref(src) == MapRef(e.data) && Footprint(src) <= objects
    ensures e == null <==> clone == null
    ensures e != null ==>
              && fresh(clone) && clone.message == e.message && clone.errorMessage == e.errorMessage && clone.rest == e.rest
              && Ref(shape) == MapRef(clone.data) && TreeOf(shape) == TreeOf(src)
              && Matches(shape) && Separate(shape) && made == Footprint(shape) && fresh(made) && clone !in made
  {
    if e == null { return null, NilMap, {}; }
    var data;
    data, shape, made := DeepCopyMap(e.data, src, objects);
    clone := new EventRecord(e.message, e.errorMessage, e.rest, data);
  }
}
