/**
 The block stripper of internal/rlm/output_sanitize.go: remove the first block, join
 the text around it, and look again from the start.
 */
module Sanitizer {
  import opened Text

  datatype Round = Done(result: string) | Again(rest: string)

  /** One turn of the loop. */
  function OneRound(text: string, open: string, close: string): (r: Round)
    ensures open + close != "" && r.Again? ==> |r.rest| < |text|
  {
    var start := IndexFrom(text, open, 0);
    if start < 0 then Done(text)
    else
      var end := IndexFrom(text, close, start + |open|);
      if end < 0 then Done(TrimSpace(text[..start])) else Again(Joined(text, start, end + |close|))
  }

  /** The stripped text.  With both delimiters empty the loop would never end. */
  function Strip(text: string, open: string, close: string): string
    requires open + close != ""
    decreases |text|
  {
    match OneRound(text, open, close)
    case Done(result) => result
    case Again(rest) => Strip(rest, open, close)
  }

  /** The text around what stands from i to j. */
  function Joined(text: string, i: nat, j: nat): string
    requires i <= j <= |text|
  {
    text[..i] + text[j..]
  }

  lemma StripWithoutOpen(text: string, open: string, close: string)
    requires open + close != "" && IndexFrom(text, open, 0) < 0
    ensures Strip(text, open, close) == text && !Occurs(text, open)
  {}

  lemma StripOneBlock(text: string, open: string, close: string, start: nat, end: nat)
    requires open + close != "" && start == IndexFrom(text, open, 0) && end == IndexFrom(text, close, start + |open|)
    ensures start <= end + |close| <= |text| && |Joined(text, start, end + |close|)| < |text|
    ensures Strip(text, open, close) == Strip(Joined(text, start, end + |close|), open, close)
  {
    assert OneRound(text, open, close) == Again(Joined(text, start, end + |close|));
  }

  /** positions picks the characters of part out of whole, left to right. */
  ghost predicate PickedBy(part: string, whole: string, positions: seq<nat>) {
    && |positions| == |part|
    && (forall i | 0 <= i < |part| :: positions[i] < |whole| && part[i] == whole[positions[i]])
    && (forall i, j | 0 <= i < j < |part| :: positions[i] < positions[j])
  }

  ghost predicate Subsequence(part: string, whole: string) {
    exists positions :: PickedBy(part, whole, positions)
  }

  lemma SliceIsSubsequence(whole: string, i: nat, j: nat)
    requires i <= j <= |whole|
    ensures Subsequence(whole[i..j], whole)
  {
    assert PickedBy(whole[i..j], whole, seq(j - i, k requires 0 <= k < j - i => i + k));
  }

  lemma WholeIsSubsequence(whole: string)
    ensures Subsequence(whole, whole)
  {
    assert whole[0..|whole|] == whole;
    SliceIsSubsequence(whole, 0, |whole|);
  }

  lemma CutIsSubsequence(whole: string, i: nat, j: nat)
    requires i <= j <= |whole|
    ensures Subsequence(Joined(whole, i, j), whole)
  {
    var n := i + |whole| - j;
    assert PickedBy(Joined(whole, i, j), whole, seq(n, k requires 0 <= k < n => if k < i then k else k - i + j));
  }

  lemma SubsequenceTransitive(a: string, b: string, c: string)
    requires Subsequence(a, b) && Subsequence(b, c)
    ensures Subsequence(a, c)
  {
    var f :| PickedBy(a, b, f);
    var g :| PickedBy(b, c, g);
    assert PickedBy(a, c, seq(|a|, i requires 0 <= i < |a| => g[f[i]]));
  }

  lemma {:induction false} StripIsSubsequence(text: string, open: string, close: string)
    requires open + close != ""
    ensures Subsequence(Strip(text, open, close), text)
    decreases |text|
  {
    var start := IndexFrom(text, open, 0);
    if start < 0 {
      StripWithoutOpen(text, open, close);
      WholeIsSubsequence(text);
    } else {
      var end := IndexFrom(text, close, start + |open|);
      if end < 0 {
        TrimmedPrefixIsSubsequence(text, start);
      } else {
        StripOneBlock(text, open, close, start, end);
        var joined := Joined(text, start, end + |close|);
        CutIsSubsequence(text, start, end + |close|);
        StripIsSubsequence(joined, open, close);
        SubsequenceTransitive(Strip(joined, open, close), joined, text);
      }
    }
  }

  lemma TrimmedPrefixIsSubsequence(text: string, start: nat)
    requires start <= |text|
    ensures Subsequence(TrimSpace(text[..start]), text)
  {
    var i, j := TrimIsPart(text[..start]);
    assert text[..start][i..j] == text[i..j];
    SliceIsSubsequence(text, i, j);
  }

  /** Nothing before the first occurrence contains the marker, trimmed or not. */
  lemma NoMarkerBeforeFirst(text: string, marker: string, start: nat, i: nat, j: nat)
    requires marker != "" && start == IndexFrom(text, marker, 0) && i <= j <= start
    ensures !Occurs(text[i..j], marker)
  {
    if p :| OccursAt(text[i..j], marker, p) {
      OccursInSlice(text, i, j, marker, p);
      assert false;
    }
  }

  lemma TrimmedPrefixHasNoMarker(text: string, marker: string, start: nat)
    requires marker != "" && start == IndexFrom(text, marker, 0)
    ensures !Occurs(TrimSpace(text[..start]), marker)
  {
    var i, j := TrimIsPart(text[..start]);
    assert text[..start][i..j] == text[i..j];
    NoMarkerBeforeFirst(text, marker, start, i, j);
  }

  /** The result never contains the open marker, not even one formed by joining text across a removed block. */
  lemma {:induction false} StripRemovesEveryOpen(text: string, open: string, close: string)
    requires open != ""
    ensures !Occurs(Strip(text, open, close), open)
    decreases |text|
  {
    var start := IndexFrom(text, open, 0);
    if start < 0 {
      StripWithoutOpen(text, open, close);
    } else {
      var end := IndexFrom(text, close, start + |open|);
      if end < 0 {
        TrimmedPrefixHasNoMarker(text, open, start);
      } else {
        StripOneBlock(text, open, close, start, end);
        StripRemovesEveryOpen(Joined(text, start, end + |close|), open, close);
      }
    }
  }

  /** Stripping leaves a text alone exactly when the open marker does not occur in it. */
  lemma StripFixpointIffNoOpen(text: string, open: string, close: string)
    requires open != ""
    ensures Strip(text, open, close) == text <==> !Occurs(text, open)
    ensures Strip(Strip(text, open, close), open, close) == Strip(text, open, close)
  {
    StripRemovesEveryOpen(text, open, close);
    assert !Occurs(Strip(text, open, close), open);
  }

  /** A block around arbitrary text is cut out whole, whatever stands before and after it. */
  lemma StripCutsBlock(before: string, block: string, after: string, open: string, close: string)
    requires open != ""
    requires IndexFrom(before + open, open, 0) == |before|
    requires IndexFrom(block + close, close, 0) == |block|
    ensures Strip(before + open + block + close + after, open, close) == Strip(before + after, open, close)
  {
    var text := before + open + block + close + after;
    Reassociate(before + open, block, close + after);
    OpenPosition(before, open, block + (close + after));
    ClosePosition(before + open, block, close, after);
    CutOut(before, open, block, close, after);
    assert Strip(text, open, close) == Strip(text[..|before|] + text[|before + open| + |block| + |close|..], open, close);
  }

  /** A block that is not closed takes the rest of the text with it, and what stands before it is
      trimmed. */
  lemma StripUnclosed(before: string, open: string, rest: string, close: string)
    requires open != ""
    requires IndexFrom(before + open, open, 0) == |before| && !Occurs(rest, close)
    ensures Strip(before + open + rest, open, close) == TrimSpace(before)
  {
    var text := before + open + rest;
    OpenPosition(before, open, rest);
    var from := |before| + |open|;
    assert text[from..|text|] == rest && text[..|before|] == before;
    forall i | from <= i ensures !OccursAt(text, close, i) {
      OccursInSlice(text, from, |text|, close, i - from);
    }
  }

  lemma Reassociate(head: string, block: string, rest: string)
    ensures head + (block + rest) == head + block + rest
  {}

  lemma CutOut(before: string, open: string, block: string, close: string, after: string)
    ensures var text := before + open + block + close + after;
            text == before + open + (block + (close + after))
            && text[..|before|] == before && text[|before + open| + |block| + |close|..] == after
  {}

  lemma OpenPosition(before: string, open: string, rest: string)
    requires IndexFrom(before + open, open, 0) == |before|
    ensures IndexFrom(before + open + rest, open, 0) == |before|
  {
    var text := before + open + rest;
    assert text[0..|before| + |open|] == before + open;
    FirstInSlice(text, 0, |before| + |open|, open, |before|);
  }

  lemma ClosePosition(head: string, block: string, close: string, after: string)
    requires IndexFrom(block + close, close, 0) == |block|
    ensures IndexFrom(head + block + close + after, close, |head|) == |head| + |block|
  {
    var text := head + block + close + after;
    var end := |head| + |block| + |close|;
    assert text[|head|..end] == block + close;
    FirstInSlice(text, |head|, end, close, |block|);
  }

  lemma FirstInSlice(text: string, i: nat, j: nat, s: string, p: nat)
    requires i <= j <= |text| && p == j - i - |s| && IndexFrom(text[i..j], s, 0) == p
    ensures IndexFrom(text, s, i) == i + p
  {
    OccursInSlice(text, i, j, s, p);
    forall q | i <= q < i + p ensures !OccursAt(text, s, q) {
      OccursInSlice(text, i, j, s, q - i);
    }
  }

  method StripDelimitedBlocks(original: string, open: string, close: string) returns (text: string)
    requires open + close != ""
    ensures text == Strip(original, open, close)
  {
    text := original;
    while true
      invariant Strip(text, open, close) == Strip(original, open, close)
      decreases |text|
    {
      var start := IndexFrom(text, open, 0);
      if start < 0 { return; }
      var end := IndexFrom(text, close, start + |open|);
      if end < 0 { return TrimSpace(text[..start]); }
      StripOneBlock(text, open, close, start, end);
      text := text[..start] + text[end + |close|..];
    }
  }
}
