/**
 Results of lambda nodes and the deterministic ways to merge them
 (composeUnion, composeIntersection, composeChronological in internal/rlm/lambda_runner.go).
 */
module Compose {
  import opened Text
  import opened StableSort

  datatype Tokens = Tokens(input: int, output: int, total: int) {
    function Plus(t: Tokens): Tokens { Tokens(input + t.input, output + t.output, total + t.total) }
  }

  const NO_TOKENS := Tokens(0, 0, 0)

  /** The metadata entries that a reduce step reads; an absent entry is its empty value. */
  datatype Metadata = Metadata(
    answerSurface: bool, candidatePaths: seq<string>, answerSeedPaths: seq<string>,
    certificateStatuses: seq<string>, tokens: Tokens, childErrors: nat, noPartials: bool, timestamp: string)

  datatype Result = Result(
    answer: string, evidenceRefs: seq<string>, retrievedPaths: seq<string>,
    iterations: nat, subcalls: nat, metadata: Metadata)

  /** The answers that are not blank, in order. */
  function Answers(partials: seq<Result>): seq<string> {
    if partials == [] then []
    else
      var last := partials[|partials| - 1].answer;
      Answers(partials[..|partials| - 1]) + if TrimSpace(last) != "" then [last] else []
  }

  function UnionText(partials: seq<Result>): string {
    Join(Answers(partials), "\n\n")
  }

  /** answers are the answers of exactly the partials whose answer is not blank, in order. */
  ghost predicate AreAnswersOf(answers: seq<string>, partials: seq<Result>) {
    Picks(partials, answers, HasAnswer, AnswerOf)
  }

  predicate HasAnswer(r: Result) { TrimSpace(r.answer) != "" }

  function AnswerOf(r: Result): string { r.answer }

  lemma AnswersSpec(partials: seq<Result>)
    ensures AreAnswersOf(Answers(partials), partials)
  {
    var at := AnswerPositions(partials);
  }

  lemma {:induction false} AnswerPositions(partials: seq<Result>) returns (at: seq<nat>)
    ensures PicksAt(partials, Answers(partials), HasAnswer, AnswerOf, at)
  {
    at := [];
    if partials != [] {
      var init, last := partials[..|partials| - 1], partials[|partials| - 1];
      at := AnswerPositions(init);
      assert partials == init + [last];
      if HasAnswer(last) {
        PickLast(init, Answers(init), HasAnswer, AnswerOf, at, last);
        at := at + [|init|];
      } else {
        SkipLast(init, Answers(init), HasAnswer, AnswerOf, at, last);
        assert Answers(partials) == Answers(init);
      }
    }
  }

  /** text joins the answers that are not blank, in order. */
  ghost predicate JoinsAnswers(text: string, partials: seq<Result>) {
    exists answers :: AreAnswersOf(answers, partials) && text == Join(answers, "\n\n")
  }

  lemma UnionSpec(partials: seq<Result>)
    ensures JoinsAnswers(UnionText(partials), partials)
  {
    AnswersSpec(partials);
  }

  method ComposeUnion(partials: seq<Result>) returns (answer: string)
    ensures answer == UnionText(partials)
  {
    var parts := CollectAnswers(partials);
    answer := Join(parts, "\n\n");
  }

  method CollectAnswers(partials: seq<Result>) returns (parts: seq<string>)
    ensures parts == Answers(partials)
  {
    parts := [];
    for i := 0 to |partials|
      invariant parts == Answers(partials[..i])
    {
      assert partials[..i + 1][..i] == partials[..i];
      if TrimSpace(partials[i].answer) != "" {
        parts := parts + [partials[i].answer];
      }
    }
    assert partials[..|partials|] == partials;
  }

  // ----- intersection

  /** How many of the partials retrieved the path. */
  function Support(partials: seq<Result>, path: string): nat {
    if partials == [] then 0
    else Support(partials[..|partials| - 1], path) + if path in partials[|partials| - 1].retrievedPaths then 1 else 0
  }

  /** At least two different partials retrieved the path. */
  ghost predicate CrossConfirmed(partials: seq<Result>, path: string) {
    exists i, j | 0 <= i < j < |partials| :: path in partials[i].retrievedPaths && path in partials[j].retrievedPaths
  }

  function AllPaths(partials: seq<Result>): seq<string> {
    if partials == [] then [] else AllPaths(partials[..|partials| - 1]) + partials[|partials| - 1].retrievedPaths
  }

  function DropRepeats(s: seq<string>): seq<string> {
    if s == [] then []
    else
      var init, last := DropRepeats(s[..|s| - 1]), s[|s| - 1];
      if last in init then init else init + [last]
  }

  function Supported(partials: seq<Result>, paths: seq<string>): seq<string> {
    if paths == [] then []
    else
      var last := paths[|paths| - 1];
      Supported(partials, paths[..|paths| - 1]) + if Support(partials, last) >= 2 then [last] else []
  }

  /** The cross-confirmed paths as one list, independent of any iteration order. */
  function SharedPaths(partials: seq<Result>): seq<string> {
    SortStrings(Supported(partials, DropRepeats(AllPaths(partials))))
  }

  lemma {:induction false} DropRepeatsSpec(s: seq<string>)
    ensures Distinct(DropRepeats(s))
    ensures forall v :: v in DropRepeats(s) <==> v in s
  {
    if s != [] {
      DropRepeatsSpec(s[..|s| - 1]);
      assert s == s[..|s| - 1] + [s[|s| - 1]];
    }
  }

  lemma {:induction false} SupportedSpec(partials: seq<Result>, paths: seq<string>)
    requires Distinct(paths)
    ensures Distinct(Supported(partials, paths))
    ensures forall v :: v in Supported(partials, paths) <==> v in paths && Support(partials, v) >= 2
  {
    if paths != [] {
      SupportedSpec(partials, paths[..|paths| - 1]);
      assert paths == paths[..|paths| - 1] + [paths[|paths| - 1]];
      assert paths[|paths| - 1] !in paths[..|paths| - 1];
    }
  }

  ghost predicate Confirmed(partials: seq<Result>, path: string) {
    exists i | 0 <= i < |partials| :: path in partials[i].retrievedPaths
  }

  /** Confirmation by one more partial. */
  lemma ConfirmOneMore(init: seq<Result>, last: Result, path: string)
    ensures Confirmed(init + [last], path) <==> Confirmed(init, path) || path in last.retrievedPaths
    ensures CrossConfirmed(init + [last], path)
            <==> CrossConfirmed(init, path) || (Confirmed(init, path) && path in last.retrievedPaths)
  {
    var all := init + [last];
    assert forall i | 0 <= i < |init| :: all[i] == init[i];
    assert all[|init|] == last;
  }

  lemma {:induction false} SupportCounts(partials: seq<Result>, path: string)
    ensures Support(partials, path) >= 1 <==> Confirmed(partials, path)
    ensures Support(partials, path) >= 1 <==> path in AllPaths(partials)
    ensures Support(partials, path) >= 2 <==> CrossConfirmed(partials, path)
  {
    if partials != [] {
      var init, last := partials[..|partials| - 1], partials[|partials| - 1];
      SupportCounts(init, path);
      ConfirmOneMore(init, last, path);
      assert partials == init + [last];
    }
  }

  /** A strictly sorted list of exactly the paths that two different partials retrieved. */
  lemma SharedPathsSpec(partials: seq<Result>)
    ensures StrictlySorted(SharedPaths(partials))
    ensures forall path :: path in SharedPaths(partials) <==> CrossConfirmed(partials, path)
  {
    var distinct := DropRepeats(AllPaths(partials));
    DropRepeatsSpec(AllPaths(partials));
    SupportedSpec(partials, distinct);
    SortStringsSpec(Supported(partials, distinct));
    forall path ensures path in SharedPaths(partials) <==> CrossConfirmed(partials, path) {
      SupportCounts(partials, path);
    }
  }

  /** a and b hold the same partials up to order; repeats of a path inside a partial do not matter. */
  ghost predicate SameUpToOrder(a: seq<Result>, b: seq<Result>, f: seq<nat>) {
    && |f| == |a| == |b|
    && (forall i | 0 <= i < |f| :: f[i] < |b|)
    && (forall i, j | 0 <= i < j < |f| :: f[i] != f[j])
    && (forall i, path | 0 <= i < |a| :: path in a[i].retrievedPaths <==> path in b[f[i]].retrievedPaths)
  }

  lemma ConfirmationIgnoresOrder(a: seq<Result>, b: seq<Result>, f: seq<nat>, path: string)
    requires SameUpToOrder(a, b, f) && CrossConfirmed(a, path)
    ensures CrossConfirmed(b, path)
  {
    var i, j :| 0 <= i < j < |a| && path in a[i].retrievedPaths && path in a[j].retrievedPaths;
    assert path in b[f[i]].retrievedPaths && path in b[f[j]].retrievedPaths;
    assert f[i] < f[j] || f[j] < f[i];
  }

  /** Neither the order of the partials nor repeats inside one of them changes the shared paths. */
  lemma SharedPathsIgnoreOrder(a: seq<Result>, b: seq<Result>, f: seq<nat>, g: seq<nat>)
    requires SameUpToOrder(a, b, f) && SameUpToOrder(b, a, g)
    ensures SharedPaths(a) == SharedPaths(b)
  {
    SharedPathsSpec(a);
    SharedPathsSpec(b);
    forall path ensures path in SharedPaths(a) <==> path in SharedPaths(b) {
      if CrossConfirmed(a, path) { ConfirmationIgnoresOrder(a, b, f, path); }
      if CrossConfirmed(b, path) { ConfirmationIgnoresOrder(b, a, g, path); }
    }
    SortedUnique(SharedPaths(a), SharedPaths(b));
  }

  function IntersectionText(partials: seq<Result>): string {
    var shared := SharedPaths(partials);
    Join((if shared != [] then ["Cross-confirmed paths: " + Join(shared, ", ")] else []) + Answers(partials), "\n\n")
  }

  /** text is a line with the paths that two different partials retrieved, sorted, if there are
      any, and then the answers. */
  ghost predicate JoinsShared(text: string, partials: seq<Result>) {
    exists shared, answers :: SharedAndAnswers(shared, answers, partials)
      && text == Join(if shared == [] then answers else ["Cross-confirmed paths: " + Join(shared, ", ")] + answers, "\n\n")
  }

  ghost predicate SharedAndAnswers(shared: seq<string>, answers: seq<string>, partials: seq<Result>) {
    StrictlySorted(shared) && (forall path :: path in shared <==> CrossConfirmed(partials, path)) && AreAnswersOf(answers, partials)
  }

  lemma IntersectionSpec(partials: seq<Result>)
    ensures JoinsShared(IntersectionText(partials), partials)
  {
    SharedPathsSpec(partials);
    AnswersSpec(partials);
    assert SharedAndAnswers(SharedPaths(partials), Answers(partials), partials);
    assert [] + Answers(partials) == Answers(partials);
  }

  /** One partial's contribution: each of its paths counts once. */
  method CountPaths(pathCount: map<string, nat>, paths: seq<string>) returns (counted: map<string, nat>)
    ensures counted.Keys == pathCount.Keys + (set p | p in paths)
    ensures forall p | p in counted ::
              counted[p] == (if p in pathCount then pathCount[p] else 0) + (if p in paths then 1 else 0)
  {
    counted := pathCount;
    var seen: set<string> := {};
    for i := 0 to |paths|
      invariant seen == set p | p in paths[..i]
      invariant counted.Keys == pathCount.Keys + seen
      invariant forall p | p in counted ::
          counted[p] == (if p in pathCount then pathCount[p] else 0) + (if p in seen then 1 else 0)
    {
      assert paths[..i + 1] == paths[..i] + [paths[i]];
      var path := paths[i];
      if path !in seen {
        counted := counted[path := (if path in counted then counted[path] else 0) + 1];
        seen := seen + {path};
      }
    }
    assert paths[..|paths|] == paths;
  }

  /** The counting map is walked in an arbitrary order, as Go walks a map. */
  method ComposeIntersection(partials: seq<Result>) returns (answer: string, shared: seq<string>)
    ensures shared == SharedPaths(partials)
    ensures answer == IntersectionText(partials)
  {
    var pathCount: map<string, nat> := map[];
    for i := 0 to |partials|
      invariant forall p :: p in pathCount <==> Support(partials[..i], p) >= 1
      invariant forall p | p in pathCount :: pathCount[p] == Support(partials[..i], p)
    {
      assert partials[..i + 1][..i] == partials[..i];
      pathCount := CountPaths(pathCount, partials[i].retrievedPaths);
    }
    assert partials[..|partials|] == partials;
    shared := [];
    var rest := pathCount.Keys;
    while rest != {}
      invariant rest <= pathCount.Keys && Distinct(shared)
      invariant forall p :: p in shared <==> p in pathCount.Keys - rest && pathCount[p] >= 2
    {
      var path :| path in rest;
      rest := rest - {path};
      if pathCount[path] >= 2 { shared := shared + [path]; }
    }
    SortStringsSpec(shared);
    shared := SortStrings(shared);
    SharedPathsSpec(partials);
    forall p ensures p in shared <==> p in SharedPaths(partials) { SupportCounts(partials, p); }
    SortedUnique(shared, SharedPaths(partials));
    var answers := CollectAnswers(partials);
    answer := Join((if shared != [] then ["Cross-confirmed paths: " + Join(shared, ", ")] else []) + answers, "\n\n");
  }

  // ----- chronological

  /** The partials by timestamp, earliest first, ties in their given order. */
  function SortByTime(partials: seq<Result>, time: string -> int): seq<Result> {
    SortBy(partials, (r: Result) => time(r.metadata.timestamp))
  }

  function ChronologicalText(partials: seq<Result>, time: string -> int): string {
    UnionText(SortByTime(partials, time))
  }

  /** sorted holds the partials by time: for every instant the same partials in the same order. */
  ghost predicate InTimeOrder(sorted: seq<Result>, partials: seq<Result>, time: string -> int) {
    var key := (r: Result) => time(r.metadata.timestamp);
    InKeyOrder(sorted, key) && forall k :: AtKey(sorted, key, k) == AtKey(partials, key, k)
  }

  ghost predicate JoinsInTimeOrder(text: string, partials: seq<Result>, time: string -> int) {
    exists sorted :: InTimeOrder(sorted, partials, time) && JoinsAnswers(text, sorted)
  }

  lemma ChronologicalSpec(partials: seq<Result>, time: string -> int)
    ensures JoinsInTimeOrder(ChronologicalText(partials, time), partials, time)
  {
    var key, sorted := (r: Result) => time(r.metadata.timestamp), SortByTime(partials, time);
    forall k ensures InKeyOrder(sorted, key) && AtKey(sorted, key, k) == AtKey(partials, key, k) {
      SortIsStable(partials, key, k);
    }
    SortIsStable(partials, key, 0);
    UnionSpec(sorted);
  }

  /** Partials without timestamps keep their order. */
  lemma SortOfUnstamped(partials: seq<Result>, time: string -> int)
    requires forall i | 0 <= i < |partials| :: partials[i].metadata.timestamp == ""
    ensures SortByTime(partials, time) == partials
  {
    SortOfTies(partials, (r: Result) => time(r.metadata.timestamp), time(""));
  }

  method ComposeChronological(partials: seq<Result>, time: string -> int) returns (answer: string)
    ensures answer == ChronologicalText(partials, time)
  {
    var sorted := SortByTime(partials, time);
    answer := ComposeUnion(sorted);
  }
}
