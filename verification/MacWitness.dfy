/**
 What the audit theorems ask of HMAC can be met: a function that is injective in key block and
 payload, built from texts that end themselves.
 */
module MacWitness {
  import opened AuditChain

  /** s with a mark before every character and another at the end. */
  function Marked(s: string): string {
    if s == "" then "." else "'" + [s[0]] + Marked(s[1..])
  }

  lemma {:induction false} MarkedEndsItself(a: string, b: string, x: string, y: string)
    requires Marked(a) + x == Marked(b) + y
    ensures a == b && x == y
  {
    var u, v := Marked(a) + x, Marked(b) + y;
    if a == "" || b == "" {
      assert u[0] == v[0];
      assert u[1..] == x && v[1..] == y;
    } else {
      assert u[1] == a[0] && v[1] == b[0];
      assert u[2..] == Marked(a[1..]) + x && v[2..] == Marked(b[1..]) + y;
      MarkedEndsItself(a[1..], b[1..], x, y);
    }
  }

  function MarkedAll(parts: seq<string>): string {
    if parts == [] then "" else Marked(parts[0]) + MarkedAll(parts[1..])
  }

  lemma {:induction false} MarkedAllEndsItself(a: seq<string>, b: seq<string>, x: string, y: string)
    requires |a| == |b| && MarkedAll(a) + x == MarkedAll(b) + y
    ensures a == b && x == y
  {
    if a == [] {
      assert MarkedAll(a) + x == x && MarkedAll(b) + y == y;
    } else {
      assert MarkedAll(a) + x == Marked(a[0]) + (MarkedAll(a[1..]) + x);
      assert MarkedAll(b) + y == Marked(b[0]) + (MarkedAll(b[1..]) + y);
      MarkedEndsItself(a[0], b[0], MarkedAll(a[1..]) + x, MarkedAll(b[1..]) + y);
      MarkedAllEndsItself(a[1..], b[1..], x, y);
    }
  }

  function Unary(n: int): string {
    if n >= 0 then seq(n, _ => '+') else seq(-n, _ => '-')
  }

  lemma UnaryInjective(m: int, n: int)
    requires Unary(m) == Unary(n)
    ensures m == n
  {
    assert |Unary(m)| == |Unary(n)|;
    assert Unary(m) != "" ==> Unary(m)[0] == Unary(n)[0];
  }

  function JsonParts(j: Json): seq<string> {
    match j
    case JsonString(s) => ["s", s]
    case JsonNumber(decimal) => ["n", decimal]
    case JsonOther(json) => ["o", json]
  }

  lemma JsonPartsInjective(a: Json, b: Json)
    requires JsonParts(a) == JsonParts(b)
    ensures a == b
  {
    assert JsonParts(a)[0] == JsonParts(b)[0] && JsonParts(a)[1] == JsonParts(b)[1];
    assert JsonParts(a)[0][0] == JsonParts(b)[0][0];
  }

  ghost function Pick(data: map<string, Json>): (k: string)
    requires data != map[]
    ensures k in data
  {
    assert data.Keys != {};
    var k :| k in data.Keys;
    k
  }

  function EntryParts(k: string, j: Json): seq<string> { [k] + JsonParts(j) }

  ghost function DataText(data: map<string, Json>): string
    decreases |data|
  {
    if data == map[] then ""
    else
      var k := Pick(data);
      Smaller(data, k);
      MarkedAll(EntryParts(k, data[k])) + DataText(data - {k})
  }

  lemma Smaller(data: map<string, Json>, k: string)
    requires k in data
    ensures |data - {k}| < |data|
  {
    assert (data - {k}).Keys == data.Keys - {k};
  }

  lemma {:induction false} DataTextInjective(a: map<string, Json>, b: map<string, Json>)
    requires DataText(a) == DataText(b)
    ensures a == b
    decreases |a|
  {
    if a != map[] && b != map[] {
      var j, k := Pick(a), Pick(b);
      var u, v := EntryParts(j, a[j]), EntryParts(k, b[k]);
      MarkedAllEndsItself(u, v, DataText(a - {j}), DataText(b - {k}));
      assert u[0] == v[0] && u[1..] == JsonParts(a[j]) && v[1..] == JsonParts(b[k]);
      JsonPartsInjective(a[j], b[k]);
      Smaller(a, j);
      DataTextInjective(a - {j}, b - {k});
      assert a == (a - {j})[j := a[j]] && b == (b - {k})[k := b[k]];
    }
  }

  function FieldParts(f: Fields): seq<string> {
    [Unary(f.timestampMillis), f.traceID, f.spanID, f.parentID, f.operation, f.name,
     f.status, Unary(f.durationMillis), f.message, f.errorType, f.errorCode]
  }

  lemma FieldPartsInjective(f: Fields, g: Fields)
    requires FieldParts(f) == FieldParts(g)
    ensures f == g
  {
    var a, b := FieldParts(f), FieldParts(g);
    assert forall i | 0 <= i < |a| :: a[i] == b[i];
    assert a[0] == b[0] && a[1] == b[1] && a[2] == b[2] && a[3] == b[3] && a[4] == b[4] && a[5] == b[5];
    assert a[6] == b[6] && a[7] == b[7] && a[8] == b[8] && a[9] == b[9] && a[10] == b[10];
    UnaryInjective(f.timestampMillis, g.timestampMillis);
    UnaryInjective(f.durationMillis, g.durationMillis);
  }

  ghost function Parts(key: Key, p: Payload): seq<string> {
    [key, p.prevHash, Unary(p.seqNo), DataText(p.data)] + FieldParts(p.fields)
  }

  lemma PartsInjective(k1: Key, p1: Payload, k2: Key, p2: Payload)
    requires Parts(k1, p1) == Parts(k2, p2)
    ensures k1 == k2 && p1 == p2
  {
    var a, b := Parts(k1, p1), Parts(k2, p2);
    assert a[0] == b[0] && a[1] == b[1] && a[2] == b[2] && a[3] == b[3];
    assert a[4..] == FieldParts(p1.fields) && b[4..] == FieldParts(p2.fields);
    UnaryInjective(p1.seqNo, p2.seqNo);
    DataTextInjective(p1.data, p2.data);
    FieldPartsInjective(p1.fields, p2.fields);
  }

  ghost function Witness(): Mac {
    Mac((key: Key) => Zeros(DIGEST_SIZE), (key: Key, p: Payload) => MarkedAll(Parts(key, p)))
  }

  /** The hypothesis of the audit theorems is met by a function. */
  lemma WitnessIsGood()
    ensures GoodMac(Witness())
  {
    var mac := Witness();
    forall k1: Key, p1: Payload, k2: Key, p2: Payload | mac.tag(k1, p1) == mac.tag(k2, p2) ensures k1 == k2 && p1 == p2 {
      MarkedAllEndsItself(Parts(k1, p1), Parts(k2, p2), "", "");
      PartsInjective(k1, p1, k2, p2);
    }
    forall k: Key, p: Payload ensures mac.tag(k, p) != "" {
      assert Parts(k, p) != [];
    }
  }
}
