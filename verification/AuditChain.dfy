/**
 The audit hash chain of foxcular/audit/audit.go: signing events, and verifying a list.
 HMAC (section 2 of RFC 2104) is a library call: keys are brought to block size as it says,
 and on blocks and payloads it is any function that is injective and never yields "".
 `MacWitness` gives such a function.
 */
module AuditChain {
  import opened Options

  type Key = string

  /** A value in an event's Data; the sequence number is stored as an unsigned integer.  A float
      stands as the shortest decimal that reads back as it, which is what JSON prints. */
  datatype Value = Text(s: string) | Uint64(n: nat) | Float64(decimal: string) | Nested(json: string)

  /** How a value renders in JSON: both kinds of number alike. */
  datatype Json = JsonString(s: string) | JsonNumber(decimal: string) | JsonOther(json: string)

  function Decimal(n: nat): string {
    if n < 10 then ["0123456789"[n]] else Decimal(n / 10) + ["0123456789"[n % 10]]
  }

  function ReadDecimal(s: string): int {
    if s == "" then 0 else 10 * ReadDecimal(s[..|s| - 1]) + (s[|s| - 1] as int - '0' as int)
  }

  /** A number is printed as itself: what is printed reads back as it. */
  lemma {:induction false} DecimalRoundTrip(n: nat)
    ensures ReadDecimal(Decimal(n)) == n
  {
    var s := Decimal(n);
    if n < 10 {
      assert s[..0] == "";
    } else {
      DecimalRoundTrip(n / 10);
      assert s[..|s| - 1] == Decimal(n / 10);
    }
  }

  function Rendered(v: Value): Json {
    match v
    case Text(s) => JsonString(s)
    case Uint64(n) => JsonNumber(Decimal(n))
    case Float64(decimal) => JsonNumber(decimal)
    case Nested(json) => JsonOther(json)
  }

  /** The same value, or an unsigned integer and the float printed alike. */
  predicate RendersAlike(v: Value, w: Value) {
    || v == w
    || (v.Uint64? && w == Float64(Decimal(v.n)))
    || (w.Uint64? && v == Float64(Decimal(w.n)))
  }

  lemma RendersAlikeIff(v: Value, w: Value)
    ensures Rendered(v) == Rendered(w) <==> RendersAlike(v, w)
  {
    if v.Uint64? { DecimalRoundTrip(v.n); }
    if w.Uint64? { DecimalRoundTrip(w.n); }
  }

  /** The event fields that the payload covers, Data apart. */
  datatype Fields = Fields(
    timestampMillis: int, traceID: string, spanID: string, parentID: string, operation: string, name: string,
    status: string, durationMillis: int, message: string, errorType: string, errorCode: string)

  /** The last three components but Data are outside the payload.  A nil Data is the empty map. */
  datatype Event = Event(fields: Fields, data: map<string, Value>, errorMessage: string, forced: bool, subMillis: int)

  datatype Payload = Payload(fields: Fields, data: map<string, Json>, prevHash: string, seqNo: nat)

  /** The two parts of HMAC: digest shortens a key that exceeds a block, tag hashes the payload
      under a block-sized key. */
  datatype Mac = Mac(digest: Key -> Key, tag: (Key, Payload) -> string)

  const BLOCK_SIZE := 64
  const DIGEST_SIZE := 32

  function Zeros(n: nat): Key { seq(n, _ => '\0') }

  /** The key as HMAC uses it: hashed if too long, then filled up with zero bytes. */
  function KeyBlock(mac: Mac, key: Key): Key {
    var short := if |key| > BLOCK_SIZE then mac.digest(key) else key;
    if |short| < BLOCK_SIZE then short + Zeros(BLOCK_SIZE - |short|) else short
  }

  function Hmac(mac: Mac, key: Key, payload: Payload): string {
    mac.tag(KeyBlock(mac, key), payload)
  }

  ghost predicate GoodMac(mac: Mac) {
    && (forall k: Key :: |mac.digest(k)| == DIGEST_SIZE)
    && (forall k1: Key, p1: Payload, k2: Key, p2: Payload :: mac.tag(k1, p1) == mac.tag(k2, p2) ==> k1 == k2 && p1 == p2)
    && (forall k: Key, p: Payload :: mac.tag(k, p) != "")
  }

  const HASH_KEY := "_audit_hash"
  const PREV_HASH_KEY := "_audit_prev_hash"
  const SEQ_KEY := "_audit_seq"
  const AUDIT_KEYS := {HASH_KEY, PREV_HASH_KEY, SEQ_KEY}

  predicate HasAuditKeys(data: map<string, Value>) {
    HASH_KEY in data || PREV_HASH_KEY in data || SEQ_KEY in data
  }

  function Render(data: map<string, Value>): map<string, Json> {
    map k | k in data :: Rendered(data[k])
  }

  function Clean(data: map<string, Value>): map<string, Value> {
    map k | k in data && k !in AUDIT_KEYS :: data[k]
  }

  /** What signing hashes: the Data as it is. */
  function SentPayload(e: Event, prevHash: string, seqNo: nat): Payload {
    Payload(e.fields, Render(e.data), prevHash, seqNo)
  }

  /** What verification hashes: the Data without the audit keys. */
  function CheckedPayload(e: Event, prevHash: string, seqNo: nat): Payload {
    Payload(e.fields, Render(Clean(e.data)), prevHash, seqNo)
  }

  function Attach(e: Event, hash: string, prevHash: string, seqNo: nat): Event {
    e.(data := e.data[HASH_KEY := Text(hash)][PREV_HASH_KEY := Text(prevHash)][SEQ_KEY := Uint64(seqNo)])
  }

  function Sign(mac: Mac, key: Key, e: Event, prevHash: string, seqNo: nat): Event {
    Attach(e, Hmac(mac, key, SentPayload(e, prevHash, seqNo)), prevHash, seqNo)
  }

  function StoredText(e: Event, key: string): string {
    if key in e.data && e.data[key].Text? then e.data[key].s else ""
  }

  function StoredHash(e: Event): string { StoredText(e, HASH_KEY) }

  function StoredSeq(e: Event): nat {
    if SEQ_KEY in e.data && e.data[SEQ_KEY].Uint64? then e.data[SEQ_KEY].n else 0
  }

  // ----- verification

  datatype AuditError = MissingHash | PrevHashMismatch | HashMismatch | SeqMismatch

  datatype Verdict = Accepted | Rejected(index: nat, error: AuditError)

  /** The first check that event e fails at its place in the list. */
  function Check(mac: Mac, key: Key, e: Event, prevHash: string, seqNo: nat): Option<AuditError> {
    if StoredHash(e) == "" then Some(MissingHash)
    else if StoredText(e, PREV_HASH_KEY) != prevHash then Some(PrevHashMismatch)
    else if StoredHash(e) != Hmac(mac, key, CheckedPayload(e, prevHash, seqNo)) then Some(HashMismatch)
    else if StoredSeq(e) != seqNo then Some(SeqMismatch)
    else None
  }

  /** The hash that the event at i must name as its predecessor's. */
  function PrevHashAt(events: seq<Event>, i: nat): string
    requires i <= |events|
  {
    if i == 0 then "" else StoredHash(events[i - 1])
  }

  ghost predicate PassesAt(mac: Mac, key: Key, events: seq<Event>, i: nat)
    requires i < |events|
  {
    Check(mac, key, events[i], PrevHashAt(events, i), i + 1).None?
  }

  /** Every event passes at its place. */
  ghost predicate Accepts(mac: Mac, key: Key, events: seq<Event>) {
    forall i | 0 <= i < |events| :: PassesAt(mac, key, events, i)
  }

  /** What acceptance asks of every event, read off its Data: a hash, the predecessor's hash (or
      none for the first), its number, and that the hash is the one of its content. */
  ghost predicate Linked(mac: Mac, key: Key, events: seq<Event>, i: nat)
    requires i < |events|
  {
    var data := events[i].data;
    && (exists hash :: hash != "" && "_audit_hash" in data && data["_audit_hash"] == Text(hash)
          && hash == Hmac(mac, key, PayloadAt(events, i)))
    && (if i == 0 then "_audit_prev_hash" !in data || !data["_audit_prev_hash"].Text? || data["_audit_prev_hash"] == Text("")
        else "_audit_prev_hash" in data && "_audit_hash" in events[i - 1].data
             && data["_audit_prev_hash"] == events[i - 1].data["_audit_hash"])
    && "_audit_seq" in data && data["_audit_seq"] == Uint64(i + 1)
  }

  lemma AcceptedIffLinked(mac: Mac, key: Key, events: seq<Event>)
    ensures Accepts(mac, key, events) <==> forall i | 0 <= i < |events| :: Linked(mac, key, events, i)
  {
    if Accepts(mac, key, events) {
      forall i | 0 <= i < |events| ensures Linked(mac, key, events, i) {
        assert PassesAt(mac, key, events, i);
        if i > 0 { assert PassesAt(mac, key, events, i - 1); }
        assert StoredHash(events[i]) != "";
      }
    }
    if forall i | 0 <= i < |events| :: Linked(mac, key, events, i) {
      forall i | 0 <= i < |events| ensures PassesAt(mac, key, events, i) {
        assert Linked(mac, key, events, i);
        if i > 0 { assert Linked(mac, key, events, i - 1); }
      }
    }
  }

  /** The verdict names the first event that does not pass, and its first failing check. */
  method Verify(mac: Mac, key: Key, events: seq<Event>) returns (verdict: Verdict)
    ensures verdict.Accepted? <==> Accepts(mac, key, events)
    ensures verdict.Rejected? ==>
              && verdict.index < |events|
              && Check(mac, key, events[verdict.index], PrevHashAt(events, verdict.index), verdict.index + 1) == Some(verdict.error)
              && forall i | 0 <= i < verdict.index :: PassesAt(mac, key, events, i)
  {
    if events == [] { return Accepted; }
    var prevHash := "";
    for i := 0 to |events|
      invariant prevHash == PrevHashAt(events, i)
      invariant forall j | 0 <= j < i :: PassesAt(mac, key, events, j)
    {
      var event := events[i];
      assert PassesAt(mac, key, events, i) <==> Check(mac, key, event, prevHash, i + 1).None?;
      var storedHash := StoredHash(event);
      if storedHash == "" { return Rejected(i, MissingHash); }
      if StoredText(event, PREV_HASH_KEY) != prevHash { return Rejected(i, PrevHashMismatch); }
      var expectedHash := Hmac(mac, key, CheckedPayload(event, prevHash, i + 1));
      if storedHash != expectedHash { return Rejected(i, HashMismatch); }
      if StoredSeq(event) != i + 1 { return Rejected(i, SeqMismatch); }
      prevHash := storedHash;
    }
    verdict := Accepted;
  }

  // ----- signing against verifying

  lemma CleanOfSigned(e: Event, hash: string, prevHash: string, seqNo: nat)
    ensures Clean(Attach(e, hash, prevHash, seqNo).data) == Clean(e.data)
  {}

  lemma CleanRendersAlikeIffClean(data: map<string, Value>)
    ensures Render(Clean(data)) == Render(data) <==> !HasAuditKeys(data)
  {
    if HasAuditKeys(data) {
      var k :| k in AUDIT_KEYS && k in data;
      assert k in Render(data) && k !in Render(Clean(data));
    } else {
      assert Clean(data) == data;
    }
  }

  /** A signed event passes verification at its place exactly when its Data had no audit keys
      before signing: signing hashes them, verifying strips them. */
  lemma SignedPassesIffClean(mac: Mac, key: Key, e: Event, prevHash: string, seqNo: nat)
    requires GoodMac(mac)
    ensures Check(mac, key, Sign(mac, key, e, prevHash, seqNo), prevHash, seqNo).None? <==> !HasAuditKeys(e.data)
  {
    var sent := SentPayload(e, prevHash, seqNo);
    var signed := Sign(mac, key, e, prevHash, seqNo);
    CleanOfSigned(e, Hmac(mac, key, sent), prevHash, seqNo);
    CleanRendersAlikeIffClean(e.data);
    assert StoredHash(signed) == Hmac(mac, key, sent) != "";
    assert CheckedPayload(signed, prevHash, seqNo) == Payload(e.fields, Render(Clean(e.data)), prevHash, seqNo);
    assert StoredText(signed, PREV_HASH_KEY) == prevHash && StoredSeq(signed) == seqNo;
  }

  /** Signing an already signed event, unchanged, breaks it for every verifier. */
  lemma SigningTwiceFails(mac: Mac, key1: Key, key2: Key, verifier: Key, e: Event, p1: string, n1: nat, p2: string, n2: nat)
    requires GoodMac(mac)
    ensures Check(mac, verifier, Sign(mac, key2, Sign(mac, key1, e, p1, n1), p2, n2), p2, n2) == Some(HashMismatch)
  {
    var once := Sign(mac, key1, e, p1, n1);
    var twice := Sign(mac, key2, once, p2, n2);
    CleanOfSigned(once, Hmac(mac, key2, SentPayload(once, p2, n2)), p2, n2);
    CleanRendersAlikeIffClean(once.data);
    assert HasAuditKeys(once.data);
    assert StoredHash(twice) != "" && StoredText(twice, PREV_HASH_KEY) == p2;
    assert CheckedPayload(twice, p2, n2) != SentPayload(once, p2, n2);
  }

  // ----- tamper evidence

  /** What the audit covers of the event at i: its payload as verified. */
  function PayloadAt(events: seq<Event>, i: nat): Payload
    requires i < |events|
  {
    CheckedPayload(events[i], PrevHashAt(events, i), i + 1)
  }

  /** The same fields, and under every key but the audit keys values that print alike, if any. */
  ghost predicate SameContent(a: Event, b: Event) {
    && a.fields == b.fields
    && forall k | k !in ["_audit_hash", "_audit_prev_hash", "_audit_seq"] ::
         (k in a.data <==> k in b.data) && (k in a.data && k in b.data ==> RendersAlike(a.data[k], b.data[k]))
  }

  /** What a payload holds: content, predecessor's hash and number. */
  lemma PayloadMeaning(a: Event, b: Event, p: string, q: string, m: nat, n: nat)
    ensures CheckedPayload(a, p, m) == CheckedPayload(b, q, n) <==> SameContent(a, b) && p == q && m == n
  {
    var x, y := Render(Clean(a.data)), Render(Clean(b.data));
    forall k | k in x && k in y ensures x[k] == y[k] <==> RendersAlike(a.data[k], b.data[k]) {
      RendersAlikeIff(a.data[k], b.data[k]);
    }
    assert forall k :: k in x <==> k in a.data && k !in ["_audit_hash", "_audit_prev_hash", "_audit_seq"];
    assert forall k :: k in y <==> k in b.data && k !in ["_audit_hash", "_audit_prev_hash", "_audit_seq"];
    if SameContent(a, b) {
      assert x.Keys == y.Keys;
      assert x == y;
    }
  }

  /** The event has the same audit entries. */
  ghost predicate SameAuditEntries(a: Event, b: Event) {
    forall k | k in ["_audit_hash", "_audit_prev_hash", "_audit_seq"] ::
      (k in a.data <==> k in b.data) && (k in a.data && k in b.data ==> a.data[k] == b.data[k])
  }

  /** Tampering with one event of an accepted list, its audit entries kept: the list is still
      accepted exactly when the content stays the same; otherwise that event fails its hash, and
      it is the first to fail. */
  lemma TamperedAcceptedIffSameContent(mac: Mac, key: Key, events: seq<Event>, i: nat, forged: Event, tampered: seq<Event>)
    requires GoodMac(mac) && Accepts(mac, key, events) && i < |events| && SameAuditEntries(forged, events[i])
    requires tampered == events[i := forged]
    ensures Accepts(mac, key, tampered) <==> SameContent(forged, events[i])
    ensures !SameContent(forged, events[i]) ==>
              && Check(mac, key, forged, PrevHashAt(tampered, i), i + 1) == Some(HashMismatch)
              && forall j | 0 <= j < i :: PassesAt(mac, key, tampered, j)
  {
    assert PassesAt(mac, key, events, i);
    PayloadMeaning(forged, events[i], PrevHashAt(events, i), PrevHashAt(events, i), i + 1, i + 1);
    assert StoredHash(forged) == StoredHash(events[i]);
    forall j | 0 <= j <= |events| ensures PrevHashAt(tampered, j) == PrevHashAt(events, j) {}
    forall j | 0 <= j < |events| && j != i ensures PassesAt(mac, key, tampered, j) {
      assert PassesAt(mac, key, events, j);
    }
    assert PassesAt(mac, key, tampered, i) <==> SameContent(forged, events[i]);
  }

  /** Removing an event that is not the last: the next one is the first to fail, and it fails
      because it names another predecessor. */
  lemma RemovedEventBreaksLink(mac: Mac, key: Key, events: seq<Event>, i: nat, rest: seq<Event>)
    requires GoodMac(mac) && Accepts(mac, key, events) && i + 1 < |events| && rest == events[..i] + events[i + 1..]
    ensures Check(mac, key, rest[i], PrevHashAt(rest, i), i + 1) == Some(PrevHashMismatch)
    ensures forall j | 0 <= j < i :: PassesAt(mac, key, rest, j)
  {
    assert PassesAt(mac, key, events, i) && PassesAt(mac, key, events, i + 1);
    if i > 0 {
      assert PassesAt(mac, key, events, i - 1);
      assert PayloadAt(events, i - 1).seqNo != PayloadAt(events, i).seqNo;
      assert StoredHash(events[i - 1]) != StoredHash(events[i]);
    }
    assert PrevHashAt(rest, i) == PrevHashAt(events, i) != StoredHash(events[i]) && rest[i] == events[i + 1];
    forall j | 0 <= j < i ensures PassesAt(mac, key, rest, j) {
      assert PassesAt(mac, key, events, j);
      assert rest[j] == events[j] && PrevHashAt(rest, j) == PrevHashAt(events, j);
    }
  }

  lemma SameHashSamePayload(mac: Mac, key: Key, other: Key, xs: seq<Event>, ys: seq<Event>, i: nat, j: nat)
    requires GoodMac(mac) && Accepts(mac, key, xs) && Accepts(mac, other, ys)
    requires i < |xs| && j < |ys| && StoredHash(xs[i]) == StoredHash(ys[j])
    ensures KeyBlock(mac, key) == KeyBlock(mac, other) && PayloadAt(xs, i) == PayloadAt(ys, j) && i == j
  {
    assert PassesAt(mac, key, xs, i) && PassesAt(mac, other, ys, j);
  }

  lemma {:induction false} SameHashesBackwards(mac: Mac, key: Key, other: Key, xs: seq<Event>, ys: seq<Event>, i: nat)
    requires GoodMac(mac) && Accepts(mac, key, xs) && Accepts(mac, other, ys)
    requires i < |xs| && i < |ys| && StoredHash(xs[i]) == StoredHash(ys[i])
    ensures forall j | 0 <= j <= i :: PayloadAt(xs, j) == PayloadAt(ys, j)
  {
    SameHashSamePayload(mac, key, other, xs, ys, i, i);
    if i > 0 { SameHashesBackwards(mac, key, other, xs, ys, i - 1); }
  }

  /** The final hash pins down the key block and the whole list: two accepted lists that end in
      the same hash have the same length and the same content throughout. */
  lemma FinalHashDeterminesList(mac: Mac, key: Key, other: Key, xs: seq<Event>, ys: seq<Event>)
    requires GoodMac(mac) && Accepts(mac, key, xs) && Accepts(mac, other, ys)
    requires xs != [] && ys != [] && StoredHash(xs[|xs| - 1]) == StoredHash(ys[|ys| - 1])
    ensures KeyBlock(mac, key) == KeyBlock(mac, other)
    ensures |xs| == |ys| && forall i | 0 <= i < |xs| :: SameContent(xs[i], ys[i])
  {
    SameHashSamePayload(mac, key, other, xs, ys, |xs| - 1, |ys| - 1);
    SameHashesBackwards(mac, key, other, xs, ys, |xs| - 1);
    forall i | 0 <= i < |xs| ensures SameContent(xs[i], ys[i]) {
      assert PayloadAt(xs, i) == PayloadAt(ys, i);
      PayloadMeaning(xs[i], ys[i], PrevHashAt(xs, i), PrevHashAt(ys, i), i + 1, i + 1);
    }
  }

  /** A list accepted under one key is accepted under another exactly when both are the same
      block to HMAC; otherwise it fails at its first hash. */
  lemma AcceptedIffSameKeyBlock(mac: Mac, key: Key, other: Key, events: seq<Event>)
    requires GoodMac(mac) && Accepts(mac, key, events) && events != []
    ensures Accepts(mac, other, events) <==> KeyBlock(mac, other) == KeyBlock(mac, key)
    ensures KeyBlock(mac, other) != KeyBlock(mac, key) ==>
              Check(mac, other, events[0], PrevHashAt(events, 0), 1) == Some(HashMismatch)
  {
    assert PassesAt(mac, key, events, 0);
    if KeyBlock(mac, other) == KeyBlock(mac, key) {
      forall i | 0 <= i < |events| ensures PassesAt(mac, other, events, i) {
        assert PassesAt(mac, key, events, i);
      }
    } else {
      assert !PassesAt(mac, other, events, 0);
    }
  }

  /** Keys within the block size are the same block exactly when they differ in trailing zero
      bytes only. */
  lemma ShortKeysSameBlockIff(mac: Mac, a: Key, b: Key)
    requires |a| <= |b| <= BLOCK_SIZE
    ensures KeyBlock(mac, a) == KeyBlock(mac, b) <==> b == a + Zeros(|b| - |a|)
  {
    var x, y := KeyBlock(mac, a), KeyBlock(mac, b);
    assert x[..|a|] == a && y[..|b|] == b;
    assert forall i | |a| <= i < BLOCK_SIZE :: x[i] == '\0';
    assert forall i | |b| <= i < BLOCK_SIZE :: y[i] == '\0';
    if x == y {
      forall i | 0 <= i < |b| ensures b[i] == (a + Zeros(|b| - |a|))[i] {
        assert b[i] == x[i];
      }
    }
    if b == a + Zeros(|b| - |a|) {
      forall i | 0 <= i < BLOCK_SIZE ensures x[i] == y[i] {
        assert i < |b| ==> y[i] == b[i];
      }
    }
  }

  /** A key longer than a block is the same block as its digest. */
  lemma LongKeyIsItsDigest(mac: Mac, key: Key)
    requires GoodMac(mac) && |key| > BLOCK_SIZE
    ensures KeyBlock(mac, key) == KeyBlock(mac, mac.digest(key)) == mac.digest(key) + Zeros(BLOCK_SIZE - DIGEST_SIZE)
  {}

  /** What one key signed, a different key accepts: the second only adds a zero byte. */
  lemma PaddedKeyIsAccepted(mac: Mac, e: Event)
    requires GoodMac(mac) && !HasAuditKeys(e.data)
    ensures "k" != "k\0" && Accepts(mac, "k\0", [Sign(mac, "k", e, "", 1)])
  {
    var list := [Sign(mac, "k", e, "", 1)];
    SignedPassesIffClean(mac, "k", e, "", 1);
    assert PassesAt(mac, "k", list, 0);
    ShortKeysSameBlockIff(mac, "k", "k\0");
    AcceptedIffSameKeyBlock(mac, "k", "k\0", list);
  }

  /** Dropping, repeating or reordering events of an accepted list leaves an accepted list
      exactly when what is left is a prefix. */
  lemma RearrangedAcceptedIffPrefix(mac: Mac, key: Key, events: seq<Event>, picks: seq<nat>, picked: seq<Event>)
    requires Accepts(mac, key, events)
    requires |picks| == |picked| && forall i | 0 <= i < |picks| :: picks[i] < |events| && picked[i] == events[picks[i]]
    ensures Accepts(mac, key, picked) <==> picked <= events
    ensures Accepts(mac, key, picked) <==> forall i | 0 <= i < |picks| :: picks[i] == i
  {
    forall j | 0 <= j < |events| ensures StoredSeq(events[j]) == j + 1 {
      assert PassesAt(mac, key, events, j);
    }
    if Accepts(mac, key, picked) {
      forall i | 0 <= i < |picks| ensures picks[i] == i {
        assert PassesAt(mac, key, picked, i);
      }
    }
    if picked <= events {
      forall i | 0 <= i < |picks| ensures picks[i] == i && PassesAt(mac, key, picked, i) {
        assert picked[i] == events[i];
        assert PassesAt(mac, key, events, i);
        assert PrevHashAt(picked, i) == PrevHashAt(events, i);
      }
    }
    if forall i | 0 <= i < |picks| :: picks[i] == i {
      PigeonholePrefix(picks, |events|);
      assert picked == events[..|picked|];
    }
  }

  lemma PigeonholePrefix(picks: seq<nat>, n: nat)
    requires forall i | 0 <= i < |picks| :: picks[i] < n && picks[i] == i
    ensures |picks| <= n
  {
    if picks != [] { assert picks[|picks| - 1] == |picks| - 1; }
  }

  // ----- reloading from JSON

  /** A JSON round trip: an unsigned integer comes back as a float, the nearest one. */
  function Reloaded(v: Value, nearest: nat -> string): Value {
    if v.Uint64? then Float64(nearest(v.n)) else v
  }

  function ReloadEvent(e: Event, nearest: nat -> string): Event {
    e.(data := map k | k in e.data :: Reloaded(e.data[k], nearest))
  }

  function Reload(events: seq<Event>, nearest: nat -> string): seq<Event> {
    seq(|events|, i requires 0 <= i < |events| => ReloadEvent(events[i], nearest))
  }

  /** Every unsigned integer in the Data, audit keys apart, is a float exactly. */
  predicate KeepsNumbers(data: map<string, Value>, nearest: nat -> string) {
    forall k | k in Clean(data) && data[k].Uint64? :: nearest(data[k].n) == Decimal(data[k].n)
  }

  lemma ReloadKeepsPayloadIff(e: Event, nearest: nat -> string, prevHash: string, seqNo: nat)
    ensures CheckedPayload(ReloadEvent(e, nearest), prevHash, seqNo) == CheckedPayload(e, prevHash, seqNo)
            <==> KeepsNumbers(e.data, nearest)
  {
    var was, now := Render(Clean(e.data)), Render(Clean(ReloadEvent(e, nearest).data));
    assert now.Keys == was.Keys;
    forall k | k in was
      ensures now[k] == was[k] <==> (e.data[k].Uint64? ==> nearest(e.data[k].n) == Decimal(e.data[k].n))
    {}
  }

  /** After a JSON round trip an accepted list is accepted only if it is empty.  The first event
      fails its hash if some integer in its Data is no float; else the hash still matches, but
      the sequence number no longer reads as an unsigned integer. */
  lemma ReloadedAcceptedIffEmpty(mac: Mac, key: Key, events: seq<Event>, nearest: nat -> string)
    requires GoodMac(mac) && Accepts(mac, key, events)
    ensures Accepts(mac, key, Reload(events, nearest)) <==> events == []
    ensures events != [] ==>
              Check(mac, key, Reload(events, nearest)[0], "", 1)
              == Some(if KeepsNumbers(events[0].data, nearest) then SeqMismatch else HashMismatch)
  {
    if events != [] {
      var e, r := events[0], Reload(events, nearest)[0];
      assert PassesAt(mac, key, events, 0);
      ReloadKeepsPayloadIff(e, nearest, "", 1);
      assert StoredHash(r) == StoredHash(e) && StoredText(r, PREV_HASH_KEY) == StoredText(e, PREV_HASH_KEY);
      assert StoredSeq(r) == 0;
      assert PrevHashAt(Reload(events, nearest), 0) == "";
      assert !PassesAt(mac, key, Reload(events, nearest), 0);
    }
  }
}
