/**
 Which evidence references an answer uses (internal/rlm/evidence_refs.go): a search
 that, after an occurrence that is not properly delimited, jumps past all of it.
 */
module EvidenceToken {
  import opened Text

  predicate IsEvidenceTokenByte(c: char) {
    'a' <= c <= 'z' || 'A' <= c <= 'Z' || '0' <= c <= '9' || c in "._/:@+-"
  }

  predicate IsSentencePeriod(answer: string, idx: nat) {
    idx < |answer| && answer[idx] == '.' && (idx + 1 >= |answer| || !IsEvidenceTokenByte(answer[idx + 1]))
  }

  predicate BeforeOK(answer: string, idx: nat)
    requires idx <= |answer|
  {
    idx == 0 || !IsEvidenceTokenByte(answer[idx - 1])
  }

  predicate AfterOK(answer: string, after: nat) {
    after >= |answer| || !IsEvidenceTokenByte(answer[after]) || IsSentencePeriod(answer, after)
  }

  /** The meaning wanted: token stands at i, delimited on both sides. */
  ghost predicate DelimitedAt(answer: string, token: string, i: int) {
    OccursAt(answer, token, i) && BeforeOK(answer, i) && AfterOK(answer, i + |token|)
  }

  ghost predicate Delimited(answer: string, token: string) {
    exists i :: DelimitedAt(answer, token, i)
  }

  /** The bytes a reference is written with, by code: +, the run from - to :, the run from @ to Z,
      _, and the run from a to z. */
  predicate IsReferenceCode(n: int) {
    n == 43 || 45 <= n <= 58 || 64 <= n <= 90 || n == 95 || 97 <= n <= 122
  }

  lemma TokenByteIff(c: char)
    ensures IsEvidenceTokenByte(c) <==> IsReferenceCode(c as int)
  {
    assert '.' as int == 46 && '_' as int == 95 && '/' as int == 47 && ':' as int == 58;
    assert '@' as int == 64 && '+' as int == 43 && '-' as int == 45;
    assert c as int == 43 ==> c == '+';
    assert c as int == 45 ==> c == '-';
    assert c as int == 46 ==> c == '.';
    assert c as int == 47 ==> c == '/';
    assert c as int == 58 ==> c == ':';
    assert c as int == 64 ==> c == '@';
    assert c as int == 95 ==> c == '_';
  }

  /** The answer reads before, token, after, and the token goes on in neither direction: no token
      byte precedes it, and none follows except a full stop that ends the answer or stands
      before a byte that is none. */
  ghost predicate ReadsAs(answer: string, before: string, token: string, after: string) {
    && answer == before + token + after
    && (before == "" || !IsReferenceCode(before[|before| - 1] as int))
    && (after == "" || !IsReferenceCode(after[0] as int) || after == "."
        || (after[0] == '.' && |after| > 1 && !IsReferenceCode(after[1] as int)))
  }

  lemma DelimitedIff(answer: string, token: string)
    requires token != ""
    ensures Delimited(answer, token) <==> exists before, after :: ReadsAs(answer, before, token, after)
  {
    if i :| DelimitedAt(answer, token, i) {
      DelimitedReads(answer, token, answer[..i], answer[i + |token|..]);
    }
    if before, after :| ReadsAs(answer, before, token, after) {
      DelimitedReads(answer, token, before, after);
    }
  }

  lemma DelimitedReads(answer: string, token: string, before: string, after: string)
    requires answer == before + token + after
    ensures DelimitedAt(answer, token, |before|) <==> ReadsAs(answer, before, token, after)
  {
    var i, j := |before|, |before| + |token|;
    assert answer[i..j] == token;
    assert answer[..i] == before && answer[j..] == after;
    assert i > 0 ==> answer[i - 1] == answer[..i][i - 1];
    assert after != "" ==> answer[j] == answer[j..][0];
    assert |after| > 1 ==> answer[j + 1] == answer[j..][1];
    if before != "" { TokenByteIff(before[|before| - 1]); }
    if after != "" { TokenByteIff(after[0]); }
    if |after| > 1 { TokenByteIff(after[1]); }
    assert |after| == 1 && after[0] == '.' ==> after == ".";
  }

  /** The verdict of the skipping search from position `from` on. */
  predicate Scan(answer: string, token: string, from: nat)
    requires token != "" && from <= |answer|
    decreases |answer| - from
  {
    var idx := IndexFrom(answer, token, from);
    idx >= 0 && ((BeforeOK(answer, idx) && AfterOK(answer, idx + |token|)) || Scan(answer, token, idx + |token|))
  }

  /** The token overlaps itself when shifted by s. */
  ghost predicate Border(token: string, s: int) {
    1 <= s < |token| && token[s..] == token[..|token| - s]
  }

  /** Every self-overlap of the token is preceded by a token byte. */
  ghost predicate SkipSafe(token: string) {
    forall s | Border(token, s) :: IsEvidenceTokenByte(token[s - 1])
  }

  lemma {:induction false} ScanIsSound(answer: string, token: string, from: nat)
    requires token != "" && from <= |answer| && Scan(answer, token, from)
    ensures Delimited(answer, token)
    decreases |answer| - from
  {
    var idx := IndexFrom(answer, token, from);
    if BeforeOK(answer, idx) && AfterOK(answer, idx + |token|) {
      assert DelimitedAt(answer, token, idx);
    } else {
      ScanIsSound(answer, token, idx + |token|);
    }
  }

  lemma OverlapIsBorder(answer: string, token: string, i: int, j: int)
    requires OccursAt(answer, token, i) && OccursAt(answer, token, j) && i < j < i + |token|
    ensures Border(token, j - i) && token[j - i - 1] == answer[j - 1]
  {
    var s := j - i;
    assert token[s..] == answer[j..i + |token|];
    assert token[..|token| - s] == answer[j..i + |token|];
  }

  lemma {:induction false} ScanIsComplete(answer: string, token: string, from: nat, j: nat)
    requires token != "" && from <= j && SkipSafe(token) && DelimitedAt(answer, token, j)
    ensures Scan(answer, token, from)
    decreases |answer| - from
  {
    var idx := IndexFrom(answer, token, from);
    if idx < j {
      if idx + |token| <= j {
        ScanIsComplete(answer, token, idx + |token|, j);
      } else {
        OverlapIsBorder(answer, token, idx, j);
      }
    }
  }

  /** A text in which the search jumps over the only delimited occurrence. */
  function Misleading(token: string, s: int): string
    requires Border(token, s)
  {
    [if token[0] == 'a' then 'b' else 'a'] + token[..s] + token
  }

  lemma MisleadingIsMissed(token: string, s: int)
    requires Border(token, s) && !IsEvidenceTokenByte(token[s - 1])
    ensures !Scan(Misleading(token, s), token, 0) && Delimited(Misleading(token, s), token)
  {
    var answer := Misleading(token, s);
    assert answer[1..1 + |token|] == token[..s] + token[..|token| - s] == token;
    assert answer[0] != token[0];
    assert answer[0..|token|][0] == answer[0];
    assert !OccursAt(answer, token, 0);
    assert OccursAt(answer, token, 1);
    assert IndexFrom(answer, token, 0) == 1;
    assert IndexFrom(answer, token, 1 + |token|) == -1;
    assert answer[1 + s..1 + s + |token|] == token;
    assert DelimitedAt(answer, token, 1 + s);
  }

  lemma ScanVerdict(answer: string, token: string)
    requires token != ""
    ensures Scan(answer, token, 0) ==> Delimited(answer, token)
    ensures SkipSafe(token) && Delimited(answer, token) ==> Scan(answer, token, 0)
  {
    if Scan(answer, token, 0) {
      ScanIsSound(answer, token, 0);
    }
    if SkipSafe(token) && Delimited(answer, token) {
      var j :| DelimitedAt(answer, token, j);
      ScanIsComplete(answer, token, 0, j);
    }
  }

  /** The skipping search decides delimited occurrence in every text exactly for the skip-safe tokens. */
  lemma ScanDecidesIffSkipSafe(token: string)
    requires token != ""
    ensures (forall answer :: Scan(answer, token, 0) <==> Delimited(answer, token)) <==> SkipSafe(token)
  {
    if SkipSafe(token) {
      forall answer ensures Scan(answer, token, 0) <==> Delimited(answer, token) {
        ScanVerdict(answer, token);
      }
    } else {
      var s :| Border(token, s) && !IsEvidenceTokenByte(token[s - 1]);
      MisleadingIsMissed(token, s);
    }
  }

  /** Tokens made of token bytes, the last one excepted, are skip-safe. */
  lemma TokenBytesAreSkipSafe(token: string)
    requires forall i | 0 <= i < |token| - 1 :: IsEvidenceTokenByte(token[i])
    ensures SkipSafe(token)
  {}

  /** A comma inside a self-overlapping token is enough to be missed. */
  lemma CommaTokenIsMissed()
    ensures !Scan("xa,a,a", "a,a", 0) && DelimitedAt("xa,a,a", "a,a", 3)
  {
    var answer, token := "xa,a,a", "a,a";
    assert answer[0..3] == "xa," && answer[1..4] == token && answer[3..6] == token;
    assert IndexFrom(answer, token, 0) == IndexFrom(answer, token, 1) == 1;
    assert IndexFrom(answer, token, 4) == -1;
  }

  predicate ContainsToken(answer: string, token: string) {
    TrimSpace(token) != "" && Scan(answer, TrimSpace(token), 0)
  }

  /** What a verdict on an untrimmed token says. */
  lemma ContainsTokenMeaning(answer: string, rawToken: string)
    ensures ContainsToken(answer, rawToken) ==> Delimited(answer, TrimSpace(rawToken))
    ensures TrimSpace(rawToken) != "" && SkipSafe(TrimSpace(rawToken)) && Delimited(answer, TrimSpace(rawToken))
            ==> ContainsToken(answer, rawToken)
  {
    if TrimSpace(rawToken) != "" { ScanVerdict(answer, TrimSpace(rawToken)); }
  }

  method AnswerContainsEvidenceToken(answer: string, rawToken: string) returns (found: bool)
    ensures found == ContainsToken(answer, rawToken)
  {
    var token := TrimSpace(rawToken);
    if token == "" { return false; }
    var searchFrom := 0;
    while true
      invariant 0 <= searchFrom <= |answer|
      invariant Scan(answer, token, 0) == Scan(answer, token, searchFrom)
      decreases |answer| - searchFrom
    {
      var idx := IndexFrom(answer, token, searchFrom);
      if idx < 0 { return false; }
      var after := idx + |token|;
      var beforeOK := BeforeOK(answer, idx);
      var afterOK := AfterOK(answer, after);
      if beforeOK && afterOK { return true; }
      searchFrom := after;
    }
  }

  /** The type and value around the first colon; two empty strings when there is none. */
  function SplitEvidenceRefString(ref: string): (string, string) {
    var trimmed := TrimSpace(ref);
    var colon := IndexFrom(trimmed, ":", 0);
    if colon < 0 then ("", "")
    else (TrimSpace(trimmed[..colon]), TrimSpace(trimmed[colon + 1..]))
  }

  predicate Mentions(answer: string, ref: string) {
    ContainsToken(answer, ref)
    || (SplitEvidenceRefString(ref).0 in ["path", "note"] && ContainsToken(answer, SplitEvidenceRefString(ref).1))
  }

  /** A reference is mentioned as a whole, or, for a path or a note, by what follows its first
      colon. */
  lemma MentionsIff(answer: string, ref: string)
    ensures Mentions(answer, ref) <==>
              || ContainsToken(answer, ref)
              || exists kind, value :: IsTyped(ref, kind, value) && TrimSpace(kind) in ["path", "note"] && ContainsToken(answer, value)
  {
    if ':' in TrimSpace(ref) {
      var kind, value := TypedByFirstColon(ref);
      forall k, v | IsTyped(ref, k, v) ensures k == kind && v == value {
        TypedOnce(ref, k, v, kind, value);
      }
      SplitWhenTyped(ref, kind, value);
      TrimIdempotent(value);
    } else {
      SplitWithoutColon(ref);
      forall kind, value ensures !IsTyped(ref, kind, value) {
        assert (kind + ":" + value)[|kind|] == ':';
      }
    }
  }

  lemma TypedByFirstColon(ref: string) returns (kind: string, value: string)
    requires ':' in TrimSpace(ref)
    ensures IsTyped(ref, kind, value)
  {
    var text := TrimSpace(ref);
    var n := 0;
    while text[n] != ':'
      invariant n < |text| && ':' in text[n..] && ':' !in text[..n]
      decreases |text| - n
    {
      assert text[n..] == [text[n]] + text[n + 1..] && text[..n + 1] == text[..n] + [text[n]];
      n := n + 1;
    }
    kind, value := text[..n], text[n + 1..];
  }

  lemma SplitWhenTyped(ref: string, kind: string, value: string)
    requires IsTyped(ref, kind, value)
    ensures SplitEvidenceRefString(ref) == (TrimSpace(kind), TrimSpace(value))
  {
    var text := TrimSpace(ref);
    assert text[|kind|..|kind| + 1] == ":";
    assert OccursAt(text, ":", |kind|);
    forall i | 0 <= i < |kind| ensures !OccursAt(text, ":", i) {
      assert text[i..i + 1] == [kind[i]];
    }
    assert text[..|kind|] == kind && text[|kind| + 1..] == value;
  }

  lemma SplitWithoutColon(ref: string)
    requires ':' !in TrimSpace(ref)
    ensures SplitEvidenceRefString(ref) == ("", "")
  {
    var text := TrimSpace(ref);
    forall i ensures !OccursAt(text, ":", i) {
      if 0 <= i < |text| { assert text[i..i + 1] == [text[i]]; }
    }
  }

  /** The trimmed reference is kind, a colon, and value; the kind has no colon. */
  ghost predicate IsTyped(ref: string, kind: string, value: string) {
    TrimSpace(ref) == kind + ":" + value && ':' !in kind
  }

  lemma TypedOnce(ref: string, k: string, v: string, kind: string, value: string)
    requires IsTyped(ref, k, v) && IsTyped(ref, kind, value)
    ensures k == kind && v == value
  {
    var text := TrimSpace(ref);
    assert text[|k|] == ':' && text[|kind|] == ':';
    assert text[..|k|] == k && text[..|kind|] == kind;
    assert forall n | 0 <= n < |k| :: text[n] == k[n] != ':';
    assert forall n | 0 <= n < |kind| :: text[n] == kind[n] != ':';
    assert text[|k| + 1..] == v && text[|kind| + 1..] == value;
  }

  method AnswerMentionsEvidenceRef(answer: string, ref: string) returns (mentioned: bool)
    ensures mentioned == Mentions(answer, ref)
  {
    var whole := AnswerContainsEvidenceToken(answer, ref);
    if whole { return true; }
    var (refType, refValue) := SplitEvidenceRefString(ref);
    if refType == "path" || refType == "note" {
      mentioned := AnswerContainsEvidenceToken(answer, refValue);
    } else {
      mentioned := false;
    }
  }

  /** The trimmed candidates that the answer mentions, as listed. */
  function UsedRefs(answer: string, trimmed: seq<string>): seq<string> {
    Filter(trimmed, v => v != "" && Mentions(answer, v))
  }

  /** v is one of the candidates, trimmed and not blank, and the answer mentions it. */
  ghost predicate IsUsed(answer: string, candidates: seq<string>, v: string) {
    Listed(candidates, v) && Mentions(answer, v)
  }

  lemma UsedRefsMember(answer: string, candidates: seq<string>, v: string)
    ensures v in UsedRefs(answer, TrimAll(candidates)) <==> IsUsed(answer, candidates, v)
    ensures v in TrimAll(candidates) ==> TrimSpace(v) == v
  {
    FilterMember(TrimAll(candidates), v => v != "" && Mentions(answer, v), v);
    if v in TrimAll(candidates) {
      var i :| 0 <= i < |candidates| && TrimSpace(candidates[i]) == v;
      TrimIdempotent(candidates[i]);
    }
  }

  lemma NothingUsedInEmptyAnswer(candidates: seq<string>, v: string)
    ensures !IsUsed("", candidates, v)
  {
    var value := SplitEvidenceRefString(v).1;
    assert TrimSpace(v) != "" ==> IndexFrom("", TrimSpace(v), 0) == -1;
    assert TrimSpace(value) != "" ==> IndexFrom("", TrimSpace(value), 0) == -1;
  }

  /** Deduplicating and sorting leave exactly the used references, each once. */
  lemma SortedUsedRefs(answer: string, candidates: seq<string>)
    ensures StrictlySorted(SortStrings(Unique(UsedRefs(answer, TrimAll(candidates)))))
    ensures forall v :: v in SortStrings(Unique(UsedRefs(answer, TrimAll(candidates)))) <==> IsUsed(answer, candidates, v)
  {
    var used := UsedRefs(answer, TrimAll(candidates));
    UniqueSpec(used);
    SortStringsSpec(Unique(used));
    forall v ensures v in Unique(used) <==> IsUsed(answer, candidates, v) {
      UsedRefsMember(answer, candidates, v);
      TrimmedStay(answer, candidates);
    }
  }

  lemma TrimmedStay(answer: string, candidates: seq<string>)
    ensures TrimAll(UsedRefs(answer, TrimAll(candidates))) == UsedRefs(answer, TrimAll(candidates))
  {
    var used := UsedRefs(answer, TrimAll(candidates));
    forall i | 0 <= i < |used| ensures TrimSpace(used[i]) == used[i] {
      assert used[i] in used;
      UsedRefsMember(answer, candidates, used[i]);
    }
  }

  method CollectAnswerUsedEvidenceRefs(rawAnswer: string, candidates: seq<string>) returns (out: seq<string>)
    ensures StrictlySorted(out)
    ensures forall v :: v in out <==> IsUsed(TrimSpace(rawAnswer), candidates, v)
  {
    var answer := TrimSpace(rawAnswer);
    if answer == "" || candidates == [] {
      forall v ensures !IsUsed(answer, candidates, v) {
        if answer == "" { NothingUsedInEmptyAnswer(candidates, v); }
      }
      return [];
    }
    SortedUsedRefs(answer, candidates);
    out := SelectMentioned(answer, candidates);
    out := UniqueStringsRLM(out);
    out := SortStrings(out);
  }

  method SelectMentioned(answer: string, candidates: seq<string>) returns (out: seq<string>)
    ensures out == UsedRefs(answer, TrimAll(candidates))
  {
    ghost var trimmed := TrimAll(candidates);
    out := [];
    for i := 0 to |candidates|
      invariant out == UsedRefs(answer, trimmed[..i])
    {
      assert trimmed[..i + 1][..i] == trimmed[..i];
      var candidate := TrimSpace(candidates[i]);
      if candidate == "" { continue; }
      var mentioned := AnswerMentionsEvidenceRef(answer, candidate);
      if mentioned { out := out + [candidate]; }
    }
    assert trimmed[..|candidates|] == trimmed;
  }
}
