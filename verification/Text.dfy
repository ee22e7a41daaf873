/**
 Strings as sequences of bytes, and the library operations the modelled code leans
 on: trimming, searching, joining, sorting and first-occurrence deduplication.
 A character stands for one byte; white space is the ASCII white space.
 */
module Text {

  predicate IsSpace(c: char) {
    c == ' ' || ('\t' <= c <= '\r')
  }

  function TrimLeft(s: string): string {
    if s != "" && IsSpace(s[0]) then TrimLeft(s[1..]) else s
  }

  function TrimRight(s: string): string {
    if s != "" && IsSpace(s[|s| - 1]) then TrimRight(s[..|s| - 1]) else s
  }

  function TrimSpace(s: string): string {
    TrimRight(TrimLeft(s))
  }

  function ToLower(s: string): (r: string)
    ensures |r| == |s|
  {
    if s == "" then ""
    else [if 'A' <= s[0] <= 'Z' then s[0] - 'A' + 'a' else s[0]] + ToLower(s[1..])
  }

  function Join(parts: seq<string>, separator: string): string {
    if parts == [] then ""
    else if |parts| == 1 then parts[0]
    else parts[0] + separator + Join(parts[1..], separator)
  }

  function Concat<T>(parts: seq<seq<T>>): seq<T> {
    if parts == [] then [] else Concat(parts[..|parts| - 1]) + parts[|parts| - 1]
  }

  /** The elements that satisfy keep, in order. */
  function Filter<T>(s: seq<T>, keep: T -> bool): seq<T> {
    if s == [] then [] else Filter(s[..|s| - 1], keep) + if keep(s[|s| - 1]) then [s[|s| - 1]] else []
  }

  lemma {:induction false} FilterMember<T>(s: seq<T>, keep: T -> bool, x: T)
    ensures x in Filter(s, keep) <==> x in s && keep(x)
  {
    if s != [] {
      FilterMember(s[..|s| - 1], keep, x);
      assert s == s[..|s| - 1] + [s[|s| - 1]];
    }
  }

  /** picked is, in order, the image under f of exactly the elements that keep accepts: they
      stand at the strictly increasing positions of some list. */
  ghost predicate Picks<T(!new), U>(from: seq<T>, picked: seq<U>, keep: T -> bool, f: T -> U) {
    exists at: seq<nat> :: PicksAt(from, picked, keep, f, at)
  }

  ghost predicate PicksAt<T(!new), U>(from: seq<T>, picked: seq<U>, keep: T -> bool, f: T -> U, at: seq<nat>) {
    && |at| == |picked|
    && (forall i | 0 <= i < |at| :: at[i] < |from| && keep(from[at[i]]) && picked[i] == f(from[at[i]]))
    && (forall i, j | 0 <= i < j < |at| :: at[i] < at[j])
    && (forall n: nat | n < |from| && keep(from[n]) :: n in at)
  }

  lemma PickLast<T(!new), U>(from: seq<T>, picked: seq<U>, keep: T -> bool, f: T -> U, at: seq<nat>, last: T)
    requires PicksAt(from, picked, keep, f, at) && keep(last)
    ensures PicksAt(from + [last], picked + [f(last)], keep, f, at + [|from|])
  {
    forall n: nat | n < |from + [last]| && keep((from + [last])[n]) ensures n in at + [|from|] {
      if n < |from| { assert keep(from[n]) && n in at; }
    }
  }

  lemma SkipLast<T(!new), U>(from: seq<T>, picked: seq<U>, keep: T -> bool, f: T -> U, at: seq<nat>, last: T)
    requires PicksAt(from, picked, keep, f, at) && !keep(last)
    ensures PicksAt(from + [last], picked, keep, f, at)
  {
    forall n: nat | n < |from + [last]| && keep((from + [last])[n]) ensures n in at {
      assert n < |from| && keep(from[n]);
    }
  }

  /** Joining, as laws: nothing, one part, and two runs of parts with a separator between them. */
  lemma {:induction false} JoinLaws(a: seq<string>, b: seq<string>, part: string, separator: string)
    ensures Join([], separator) == "" && Join([part], separator) == part
    ensures a != [] && b != [] ==> Join(a + b, separator) == Join(a, separator) + separator + Join(b, separator)
  {
    if |a| > 1 && b != [] {
      JoinLaws(a[1..], b, part, separator);
      assert (a + b)[0] == a[0] && (a + b)[1..] == a[1..] + b;
    } else if |a| == 1 && b != [] {
      assert (a + b)[0] == a[0] && (a + b)[1..] == b;
    }
  }

  /** The same letter, or the same byte if it is no letter. */
  predicate SameLetter(c: char, d: char) {
    || c == d
    || ('A' <= c <= 'Z' && d as int == c as int + 32)
    || ('A' <= d <= 'Z' && c as int == d as int + 32)
  }

  ghost predicate SameIgnoringCase(a: string, b: string) {
    |a| == |b| && forall i | 0 <= i < |a| :: SameLetter(a[i], b[i])
  }

  lemma {:induction false} ToLowerComparesIgnoringCase(a: string, b: string)
    ensures ToLower(a) == ToLower(b) <==> SameIgnoringCase(a, b)
  {
    if a != "" && b != "" {
      ToLowerComparesIgnoringCase(a[1..], b[1..]);
      var x, y := ToLower(a), ToLower(b);
      assert x == y <==> x[0] == y[0] && x[1..] == y[1..] by {
        assert x == [x[0]] + x[1..] && y == [y[0]] + y[1..];
      }
      assert x[1..] == ToLower(a[1..]) && y[1..] == ToLower(b[1..]);
      assert SameIgnoringCase(a, b) <==> SameLetter(a[0], b[0]) && SameIgnoringCase(a[1..], b[1..]) by {
        assert forall i | 1 <= i < |a| && |a| == |b| :: a[i] == a[1..][i - 1] && b[i] == b[1..][i - 1];
      }
    }
  }

  lemma {:induction false} ToLowerOfSlice(s: string, i: nat, j: nat)
    requires i <= j <= |s|
    ensures ToLower(s)[i..j] == ToLower(s[i..j])
  {
    if i > 0 {
      ToLowerOfSlice(s[1..], i - 1, j - 1);
      assert s[1..][i - 1..j - 1] == s[i..j];
      assert ToLower(s)[i..j] == ToLower(s)[1..][i - 1..j - 1];
    } else if j > 0 {
      ToLowerOfSlice(s[1..], 0, j - 1);
      assert s[1..][..j - 1] == s[..j][1..];
      assert ToLower(s)[..j] == [ToLower(s)[0]] + ToLower(s)[1..][..j - 1];
    }
  }

  /** The part of text from i on is s, ignoring case. */
  ghost predicate OccursIgnoringCaseAt(text: string, s: string, i: int) {
    0 <= i <= |text| - |s| && SameIgnoringCase(text[i..i + |s|], s)
  }

  ghost predicate OccursIgnoringCase(text: string, s: string) {
    exists i :: OccursIgnoringCaseAt(text, s, i)
  }

  lemma ContainsIgnoringCase(text: string, s: string)
    ensures Contains(ToLower(text), ToLower(s)) <==> OccursIgnoringCase(text, s)
  {
    forall i ensures OccursAt(ToLower(text), ToLower(s), i) <==> OccursIgnoringCaseAt(text, s, i) {
      LowerOccursAt(text, s, i);
    }
    assert Contains(ToLower(text), ToLower(s)) <==> exists i :: OccursAt(ToLower(text), ToLower(s), i);
  }

  lemma LowerOccursAt(text: string, s: string, i: int)
    ensures OccursAt(ToLower(text), ToLower(s), i) <==> OccursIgnoringCaseAt(text, s, i)
  {
    if 0 <= i <= |text| - |s| {
      ToLowerOfSlice(text, i, i + |s|);
      ToLowerComparesIgnoringCase(text[i..i + |s|], s);
    }
  }

  /** s occurs in text at position i. */
  predicate OccursAt(text: string, s: string, i: int) {
    0 <= i <= |text| - |s| && text[i..i + |s|] == s
  }

  ghost predicate Occurs(text: string, s: string) {
    exists i :: OccursAt(text, s, i)
  }

  /** The first occurrence of s at or after `from`, or -1. */
  function IndexFrom(text: string, s: string, from: nat): (r: int)
    requires from <= |text|
    ensures r == -1 ==> forall i | from <= i :: !OccursAt(text, s, i)
    ensures r != -1 ==> from <= r && OccursAt(text, s, r) && forall i | from <= i < r :: !OccursAt(text, s, i)
    decreases |text| - from
  {
    if from + |s| > |text| then -1
    else if OccursAt(text, s, from) then from
    else IndexFrom(text, s, from + 1)
  }

  predicate Contains(text: string, s: string)
    ensures Contains(text, s) <==> Occurs(text, s)
  {
    IndexFrom(text, s, 0) != -1
  }

  /** Occurrences inside a slice are the occurrences inside the whole that fit the slice. */
  lemma OccursInSlice(text: string, i: nat, j: nat, s: string, p: int)
    requires i <= j <= |text|
    ensures OccursAt(text[i..j], s, p) <==> 0 <= p <= j - i - |s| && OccursAt(text, s, i + p)
  {
    if 0 <= p <= j - i - |s| {
      var inner, outer := text[i..j][p..p + |s|], text[i + p..i + p + |s|];
      assert |inner| == |outer| && forall k | 0 <= k < |s| :: inner[k] == outer[k];
      assert inner == outer;
    }
  }

  // ----- trimming

  lemma {:induction false} TrimLeftShape(s: string) returns (k: nat)
    ensures k <= |s| && TrimLeft(s) == s[k..]
    ensures TrimLeft(s) == "" || !IsSpace(TrimLeft(s)[0])
    ensures forall n | 0 <= n < k :: IsSpace(s[n])
  {
    k := 0;
    if s != "" && IsSpace(s[0]) {
      k := TrimLeftShape(s[1..]);
      assert s[1..][k..] == s[k + 1..];
      k := k + 1;
    }
  }

  lemma {:induction false} TrimRightShape(s: string) returns (k: nat)
    ensures k <= |s| && TrimRight(s) == s[..k]
    ensures TrimRight(s) == "" || !IsSpace(TrimRight(s)[|TrimRight(s)| - 1])
    ensures forall n | k <= n < |s| :: IsSpace(s[n])
  {
    k := |s|;
    if s != "" && IsSpace(s[|s| - 1]) {
      k := TrimRightShape(s[..|s| - 1]);
      assert s[..|s| - 1][..k] == s[..k];
    }
  }

  /** A trimmed text is a contiguous part of the text, so trimming creates no occurrence. */
  lemma TrimIsPart(s: string) returns (i: nat, j: nat)
    ensures i <= j <= |s| && TrimSpace(s) == s[i..j]
  {
    i := TrimLeftShape(s);
    var k := TrimRightShape(s[i..]);
    j := i + k;
    assert s[i..][..k] == s[i..j];
  }

  /** What is trimmed off is white space, and what is left neither begins nor ends with any. */
  ghost predicate TrimmedTo(s: string, i: nat, j: nat) {
    && i <= j <= |s| && (forall n | 0 <= n < i || j <= n < |s| :: IsSpace(s[n]))
    && (i < j ==> !IsSpace(s[i]) && !IsSpace(s[j - 1]))
  }

  lemma TrimSpaceSpec(s: string)
    ensures exists i: nat, j: nat :: TrimmedTo(s, i, j) && TrimSpace(s) == s[i..j]
    ensures TrimSpace(s) == "" <==> forall n | 0 <= n < |s| :: IsSpace(s[n])
  {
    var i := TrimLeftShape(s);
    var k := TrimRightShape(s[i..]);
    assert s[i..][..k] == s[i..i + k];
    assert forall n | i <= n < |s| :: s[n] == s[i..][n - i];
    assert TrimmedTo(s, i, i + k);
  }

  lemma TrimIdempotent(s: string)
    ensures TrimSpace(TrimSpace(s)) == TrimSpace(s)
  {
    var i := TrimLeftShape(s);
    var k := TrimRightShape(TrimLeft(s));
    var t := TrimSpace(s);
    assert t != "" ==> t[0] == TrimLeft(s)[0];
  }

  function TrimAll(values: seq<string>): (r: seq<string>)
    ensures |r| == |values| && forall i | 0 <= i < |r| :: r[i] == TrimSpace(values[i])
  {
    seq(|values|, i requires 0 <= i < |values| => TrimSpace(values[i]))
  }

  // ----- first-occurrence deduplication (uniqueStringsRLM)

  /** The distinct non-blank trimmed values, in order of first occurrence. */
  function Unique(values: seq<string>): seq<string> {
    if values == [] then []
    else Extend(Unique(values[..|values| - 1]), TrimSpace(values[|values| - 1]))
  }

  function Extend(out: seq<string>, value: string): seq<string> {
    if value == "" || value in out then out else out + [value]
  }

  /** Extend by every value of a list in turn. */
  function ExtendAll(out: seq<string>, values: seq<string>): seq<string> {
    if values == [] then out
    else Extend(ExtendAll(out, values[..|values| - 1]), TrimSpace(values[|values| - 1]))
  }

  ghost predicate Distinct<T>(s: seq<T>) {
    forall i, j | 0 <= i < j < |s| :: s[i] != s[j]
  }

  /** v is the trimmed text of some value, and not blank. */
  ghost predicate Listed(values: seq<string>, v: string) {
    v != "" && v in TrimAll(values)
  }

  /** The first position of v among the trimmed values; past the end when there is none. */
  function FirstIndex(values: seq<string>, v: string): (i: nat)
    ensures i <= |values| && (i < |values| <==> v in TrimAll(values))
    ensures i < |values| ==> TrimSpace(values[i]) == v
    ensures forall j | 0 <= j < i :: TrimSpace(values[j]) != v
  {
    if values == [] then 0
    else
      var init := values[..|values| - 1];
      assert TrimAll(values) == TrimAll(init) + [TrimSpace(values[|values| - 1])];
      var i := FirstIndex(init, v);
      if i < |init| then i else if TrimSpace(values[|values| - 1]) == v then i else |values|
  }

  /** Exactly the listed values, each once. */
  lemma {:induction false} UniqueSpec(values: seq<string>)
    ensures Distinct(Unique(values))
    ensures forall v :: v in Unique(values) <==> Listed(values, v)
  {
    if values != [] {
      UniqueSpec(values[..|values| - 1]);
      assert TrimAll(values) == TrimAll(values[..|values| - 1]) + [TrimSpace(values[|values| - 1])];
    }
  }

  /** They come in the order of their first occurrences. */
  lemma {:induction false} UniqueOrder(values: seq<string>, p: nat, q: nat)
    requires p < q < |Unique(values)|
    ensures FirstIndex(values, Unique(values)[p]) < FirstIndex(values, Unique(values)[q]) < |values|
  {
    var init, u := values[..|values| - 1], Unique(values);
    UniqueSpec(init);
    UniqueSpec(values);
    assert u[q] in u && u[p] in Unique(init);
    if q < |Unique(init)| {
      UniqueOrder(init, p, q);
    } else {
      assert u[q] !in Unique(init);
    }
  }

  lemma {:induction false} UniqueAppend(a: seq<string>, b: seq<string>)
    ensures Unique(a + b) == ExtendAll(Unique(a), b)
  {
    if b == [] {
      assert a + b == a;
    } else {
      assert (a + b)[..|a + b| - 1] == a + b[..|b| - 1];
      UniqueAppend(a, b[..|b| - 1]);
    }
  }

  /** Extending by a deduplicated list adds what extending by the list itself adds. */
  lemma {:induction false} ExtendByUnique(out: seq<string>, b: seq<string>)
    ensures ExtendAll(out, Unique(b)) == ExtendAll(out, b)
    ensures forall v | v in out || v in Unique(b) :: v in ExtendAll(out, b)
  {
    if b != [] {
      var init, v := b[..|b| - 1], TrimSpace(b[|b| - 1]);
      ExtendByUnique(out, init);
      if v != "" && v !in Unique(init) {
        assert Unique(b) == Unique(init) + [v];
        assert Unique(b)[..|Unique(b)| - 1] == Unique(init);
        TrimIdempotent(b[|b| - 1]);
      }
    }
  }

  /** Deduplicating parts before deduplicating the whole changes nothing. */
  lemma UniqueOfUniques(a: seq<string>, b: seq<string>)
    ensures Unique(Unique(a) + Unique(b)) == Unique(a + b)
    ensures Unique(Unique(a)) == Unique(a)
  {
    UniqueAppend([], a);
    ExtendByUnique([], a);
    UniqueAppend([], Unique(a));
    assert [] + a == a && [] + Unique(a) == Unique(a);
    UniqueAppend(Unique(a), Unique(b));
    UniqueAppend(a, b);
    ExtendByUnique(Unique(a), b);
  }

  /** The loop of uniqueStringsRLM, with its `seen` map as a set. */
  method UniqueStringsRLM(values: seq<string>) returns (out: seq<string>)
    ensures out == Unique(values)
  {
    var seen: set<string> := {};
    out := [];
    for i := 0 to |values|
      invariant out == Unique(values[..i])
      invariant forall v :: v in seen <==> v in out
    {
      assert values[..i + 1][..i] == values[..i];
      var value := TrimSpace(values[i]);
      if value == "" { continue; }
      if value in seen { continue; }
      seen := seen + {value};
      out := out + [value];
    }
    assert values[..|values|] == values;
  }

  // ----- byte order and sorting (sort.Strings)

  predicate LexLess(a: string, b: string) {
    b != "" && (a == "" || a[0] < b[0] || (a[0] == b[0] && LexLess(a[1..], b[1..])))
  }

  lemma {:induction false} LexIrreflexive(a: string)
    ensures !LexLess(a, a)
  {
    if a != "" { LexIrreflexive(a[1..]); }
  }

  lemma {:induction false} LexTotal(a: string, b: string)
    ensures a == b || LexLess(a, b) || LexLess(b, a)
    ensures !(LexLess(a, b) && LexLess(b, a)) && !LexLess(a, a)
    decreases |a| + |b|
  {
    LexIrreflexive(a);
    if a != "" && b != "" {
      LexTotal(a[1..], b[1..]);
      assert a[0] == b[0] && a[1..] == b[1..] ==> a == [a[0]] + a[1..] == b;
    }
  }

  lemma {:induction false} LexTransitive(a: string, b: string, c: string)
    requires LexLess(a, b) && LexLess(b, c)
    ensures LexLess(a, c)
  {
    if a != "" && a[0] == b[0] == c[0] {
      LexTransitive(a[1..], b[1..], c[1..]);
    }
  }

  /** In byte order: a is a proper beginning of b, or smaller at the first difference. */
  ghost predicate SmallerAt(a: string, b: string, n: nat) {
    n <= |a| && n < |b| && a[..n] == b[..n] && (n < |a| ==> a[n] < b[n])
  }

  lemma {:induction false} LexLessIff(a: string, b: string)
    ensures LexLess(a, b) <==> exists n: nat :: SmallerAt(a, b, n)
  {
    if b != "" && (a == "" || a[0] < b[0]) {
      assert SmallerAt(a, b, 0);
    } else if a != "" && b != "" && a[0] == b[0] {
      LexLessIff(a[1..], b[1..]);
      if LexLess(a, b) {
        var n: nat :| SmallerAt(a[1..], b[1..], n);
        SmallerBelow(a, b, n);
      }
      if n: nat :| SmallerAt(a, b, n) {
        assert n > 0;
        SmallerBelow(a, b, n - 1);
      }
    } else {
      forall n: nat ensures !SmallerAt(a, b, n) {
        assert 0 < n <= |a| && n < |b| ==> a[..n][0] == a[0] && b[..n][0] == b[0];
      }
    }
  }

  lemma SmallerBelow(a: string, b: string, n: nat)
    requires a != "" && b != "" && a[0] == b[0]
    ensures SmallerAt(a[1..], b[1..], n) <==> SmallerAt(a, b, n + 1)
  {
    if n + 1 <= |a| && n + 1 <= |b| {
      var x, y := a[..n + 1], b[..n + 1];
      assert x == [a[0]] + a[1..][..n] && y == [b[0]] + b[1..][..n];
      assert x[1..] == a[1..][..n] && y[1..] == b[1..][..n];
    }
  }

  ghost predicate StrictlySorted(s: seq<string>) {
    forall i, j | 0 <= i < j < |s| :: LexLess(s[i], s[j])
  }

  function InsertString(x: string, s: seq<string>): seq<string> {
    if s == [] || LexLess(x, s[0]) then [x] + s else [s[0]] + InsertString(x, s[1..])
  }

  function SortStrings(s: seq<string>): seq<string> {
    if s == [] then [] else InsertString(s[0], SortStrings(s[1..]))
  }

  lemma {:induction false} InsertSorted(x: string, s: seq<string>)
    requires StrictlySorted(s) && x !in s
    ensures StrictlySorted(InsertString(x, s))
    ensures forall v :: v in InsertString(x, s) <==> v == x || v in s
  {
    if s == [] {
    } else if LexLess(x, s[0]) {
      forall j | 0 <= j < |s| ensures LexLess(x, s[j]) {
        if j > 0 { LexTransitive(x, s[0], s[j]); }
      }
    } else {
      LexTotal(x, s[0]);
      InsertSorted(x, s[1..]);
      var r := InsertString(x, s[1..]);
      forall j | 0 <= j < |r| ensures LexLess(s[0], r[j]) {
        assert r[j] in r;
      }
      assert s == [s[0]] + s[1..];
    }
  }

  /** Sorting distinct strings gives a strictly sorted list of the same strings. */
  lemma {:induction false} SortStringsSpec(s: seq<string>)
    requires Distinct(s)
    ensures StrictlySorted(SortStrings(s))
    ensures forall v :: v in SortStrings(s) <==> v in s
  {
    if s != [] {
      SortStringsSpec(s[1..]);
      assert s[0] !in s[1..];
      InsertSorted(s[0], SortStrings(s[1..]));
      assert s == [s[0]] + s[1..];
    }
  }

  /** A strictly sorted list is determined by its elements. */
  lemma {:induction false} SortedUnique(a: seq<string>, b: seq<string>)
    requires StrictlySorted(a) && StrictlySorted(b)
    requires forall v :: v in a <==> v in b
    ensures a == b
  {
    assert (a != [] ==> a[0] in a) && (b != [] ==> b[0] in b);
    if a != [] {
      assert a[0] in b && b[0] in a;
      var i :| 0 <= i < |b| && b[i] == a[0];
      var j :| 0 <= j < |a| && a[j] == b[0];
      LexTotal(a[0], b[0]);
      assert a[0] == b[0];
      forall v ensures v in a[1..] <==> v in b[1..] {
        LexIrreflexive(a[0]);
        assert v in a[1..] ==> v in a && v != a[0];
        assert v in b[1..] ==> v in b && v != b[0];
        assert v in a && v != a[0] ==> v in a[1..];
        assert v in b && v != b[0] ==> v in b[1..];
      }
      SortedUnique(a[1..], b[1..]);
      assert a == [a[0]] + a[1..] && b == [b[0]] + b[1..];
    }
  }
}
