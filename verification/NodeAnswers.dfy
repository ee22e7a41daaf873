/**
 What the nodes of the lambda runner answer (internal/rlm/lambda_runner.go), in terms of the
 replies of tools and model alone.
 */
module NodeAnswers {
  import opened Saturating
  import opened Options
  import opened Text
  import opened StableSort
  import opened Planner
  import opened Compose
  import opened PhiTree
  import opened Runner

  // ----- the candidates of a leaf

  predicate NamesPath(o: Oracle, ref: string) { o.normalizePath(ref) != "" }

  lemma {:induction false} NormalizedPathsPicked(o: Oracle, refs: seq<string>) returns (at: seq<nat>)
    ensures PicksAt(refs, NormalizedPaths(o, refs), (ref: string) => NamesPath(o, ref), o.normalizePath, at)
  {
    at := [];
    if refs != [] {
      var init, last := refs[..|refs| - 1], refs[|refs| - 1];
      at := NormalizedPathsPicked(o, init);
      assert refs == init + [last];
      var keep := (ref: string) => NamesPath(o, ref);
      if keep(last) {
        PickLast(init, NormalizedPaths(o, init), keep, o.normalizePath, at, last);
        at := at + [|init|];
      } else {
        SkipLast(init, NormalizedPaths(o, init), keep, o.normalizePath, at, last);
      }
    }
  }

  /** The distinct references that the search result names, by the paths they stand for. */
  ghost predicate SomeRefNamesPath(o: Oracle, hit: SearchHit) {
    exists ref | ref in Unique(hit.objectRefs) :: TrimSpace(o.normalizePath(ref)) != ""
  }

  /** The candidates: the references of the search result and the paths they name, if they name
      any; else the paths found in it, and those as references. */
  ghost predicate AreCandidates(o: Oracle, hit: SearchHit, refs: seq<string>, paths: seq<string>) {
    if SomeRefNamesPath(o, hit) then
      && refs == Unique(hit.objectRefs) && Distinct(paths)
      && forall p :: p in paths <==> p != "" && exists ref | ref in refs :: TrimSpace(o.normalizePath(ref)) == p
    else
      && paths == Unique(hit.paths) && |refs| == |paths|
      && forall i | 0 <= i < |refs| :: refs[i] == "path:" + paths[i]
  }

  lemma {:induction false} PathRefsOfPaths(paths: seq<string>)
    requires forall i | 0 <= i < |paths| :: paths[i] != "" && TrimSpace(paths[i]) == paths[i]
    ensures |PathRefs(paths)| == |paths| && forall i | 0 <= i < |paths| :: PathRefs(paths)[i] == "path:" + paths[i]
  {
    if paths != [] { PathRefsOfPaths(paths[..|paths| - 1]); }
  }

  lemma UniqueIsTrimmed(values: seq<string>)
    ensures forall i | 0 <= i < |Unique(values)| :: Unique(values)[i] != "" && TrimSpace(Unique(values)[i]) == Unique(values)[i]
  {
    UniqueSpec(values);
    forall i | 0 <= i < |Unique(values)| ensures Unique(values)[i] != "" && TrimSpace(Unique(values)[i]) == Unique(values)[i] {
      assert Listed(values, Unique(values)[i]);
      var j :| 0 <= j < |values| && TrimSpace(values[j]) == Unique(values)[i];
      TrimIdempotent(values[j]);
    }
  }

  lemma NamedPaths(o: Oracle, refs: seq<string>)
    ensures Distinct(Unique(NormalizedPaths(o, refs)))
    ensures forall p :: p in Unique(NormalizedPaths(o, refs)) <==> p != "" && exists ref | ref in refs :: TrimSpace(o.normalizePath(ref)) == p
  {
    var named := NormalizedPaths(o, refs);
    UniqueSpec(named);
    var at := NormalizedPathsPicked(o, refs);
    forall p ensures p in Unique(named) <==> p != "" && exists ref | ref in refs :: TrimSpace(o.normalizePath(ref)) == p {
      NamedPath(o, refs, at, p);
    }
  }

  lemma NamedPath(o: Oracle, refs: seq<string>, at: seq<nat>, p: string)
    requires PicksAt(refs, NormalizedPaths(o, refs), (ref: string) => NamesPath(o, ref), o.normalizePath, at)
    ensures Listed(NormalizedPaths(o, refs), p) <==> p != "" && exists ref | ref in refs :: TrimSpace(o.normalizePath(ref)) == p
  {
    var named := NormalizedPaths(o, refs);
    if Listed(named, p) {
      var i :| 0 <= i < |named| && TrimSpace(named[i]) == p;
      assert refs[at[i]] in refs;
    }
    if ref :| p != "" && ref in refs && TrimSpace(o.normalizePath(ref)) == p {
      var n: nat :| n < |refs| && refs[n] == ref;
      assert NamesPath(o, refs[n]);
      assert n in at;
      var i :| 0 <= i < |at| && at[i] == n;
      assert TrimAll(named)[i] == p;
    }
  }

  lemma CandidatesSpec(o: Oracle, hit: SearchHit)
    ensures AreCandidates(o, hit, CandidateRefs(o, hit), CandidatePaths(o, hit))
  {
    var refs := Unique(hit.objectRefs);
    var named := Unique(NormalizedPaths(o, refs));
    NamedPaths(o, refs);
    if named == [] {
      assert !SomeRefNamesPath(o, hit) by {
        forall ref | ref in refs ensures TrimSpace(o.normalizePath(ref)) == "" {
          assert TrimSpace(o.normalizePath(ref)) !in named;
        }
      }
      UniqueIsTrimmed(hit.paths);
      PathRefsOfPaths(Unique(hit.paths));
    } else {
      assert named[0] in named;
    }
  }

  // ----- the answer of a leaf

  predicate Loads(o: Oracle, path: Path, ref: string) { o.load(path, ref).Some? && o.load(path, ref).value != "" }

  function Quote(o: Oracle, path: Path, ref: string): string {
    "Evidence: " + ref + "\n" + if o.load(path, ref).Some? then o.load(path, ref).value else ""
  }

  /** The quoted replies of exactly the references whose load gave text, in order. */
  ghost predicate AreQuotes(o: Oracle, path: Path, refs: seq<string>, quotes: seq<string>) {
    Picks(refs, quotes, (ref: string) => Loads(o, path, ref), (ref: string) => Quote(o, path, ref))
  }

  lemma SnippetsSpec(o: Oracle, path: Path, refs: seq<string>)
    ensures AreQuotes(o, path, refs, Snippets(o, path, refs))
  {
    var keep, f := (ref: string) => Loads(o, path, ref), (ref: string) => Quote(o, path, ref);
    var at := SnippetPositions(o, path, refs, keep, f);
  }

  lemma {:induction false} SnippetPositions(o: Oracle, path: Path, refs: seq<string>, keep: string -> bool, f: string -> string) returns (at: seq<nat>)
    requires forall ref :: keep(ref) == Loads(o, path, ref) && f(ref) == Quote(o, path, ref)
    ensures PicksAt(refs, Snippets(o, path, refs), keep, f, at)
  {
    at := [];
    if refs != [] {
      var init, last := refs[..|refs| - 1], refs[|refs| - 1];
      at := SnippetPositions(o, path, init, keep, f);
      assert refs == init + [last];
      if keep(last) {
        assert "Evidence: " + last + "\n" + o.load(path, last).value == f(last);
        PickLast(init, Snippets(o, path, init), keep, f, at, last);
        at := at + [|init|];
      } else {
        SkipLast(init, Snippets(o, path, init), keep, f, at, last);
      }
    }
  }

  /** The paths of a node: those its answer names, else its distinct candidates. */
  ghost predicate ArePathsOf(o: Oracle, answer: string, candidates: seq<string>, paths: seq<string>) {
    paths == if o.answerPaths(answer) != [] then o.answerPaths(answer) else Unique(candidates)
  }

  /** The leaf copied the answer surface. */
  ghost predicate Copied(hit: SearchHit, paths: seq<string>, r: Result) {
    && hit.answerSurface(paths) == Some(r.answer) && r.retrievedPaths == paths && r.subcalls == 1
    && r.metadata.answerSurface && r.metadata.tokens == NO_TOKENS
  }

  /** The leaf had the model judge the evidence and gives its answer; if the judgement failed, the
      text and the candidates of the search. */
  ghost predicate JudgedOn(o: Oracle, path: Path, task: Task, hit: SearchHit, paths: seq<string>, quotes: seq<string>, r: Result) {
    var evidence := if quotes != [] then Join(quotes, "\n---\n") else hit.text;
    && !r.metadata.answerSurface
    && match o.judge(path, task.prompt, evidence)
       case Answered(answer, usage) =>
         && r.answer == answer && r.metadata.tokens == usage && r.subcalls == 1 + |quotes|
         && ArePathsOf(o, answer, paths, r.retrievedPaths)
       case Failed(usage) => r.answer == hit.text && r.metadata.tokens == usage && r.subcalls == 1 && r.retrievedPaths == paths
  }

  ghost predicate MayCopy(o: Oracle, path: Path, task: Task, plan: LambdaPlan, refs: seq<string>) {
    && ((plan.taskType == CodeUnderstand || task.wantsGraph) ==>
          refs != [] && o.graphTrusted(path, task.prompt, if 0 < plan.tauStar < |refs| then refs[..plan.tauStar] else refs))
  }

  /** What a leaf reports, from which calls it makes: it copies a usable answer surface, or else
      loads the first candidates, at most tauStar, and has them judged. */
  ghost predicate AnswersFrom(o: Oracle, path: Path, task: Task, plan: LambdaPlan, hit: SearchHit, refs: seq<string>, paths: seq<string>,
                              r: Result, loads: nat, judgements: nat, expansions: nat) {
    && r.evidenceRefs == Unique(hit.surfaceRefs + refs) && r.metadata.candidatePaths == paths
    && r.metadata.answerSeedPaths == Unique(hit.seedPaths) && r.metadata.certificateStatuses == hit.statuses
    && expansions == (if (plan.taskType == CodeUnderstand || task.wantsGraph) && refs != [] then 1 else 0)
    && if hit.answerSurface(paths).Some? && MayCopy(o, path, task, plan, refs)
       then judgements == 0 && loads == 0 && Copied(hit, paths, r)
       else
         && judgements == 1 && loads == Min(|refs|, Max(0, plan.tauStar))
         && exists quotes :: AreQuotes(o, path, refs[..loads], quotes) && JudgedOn(o, path, task, hit, paths, quotes, r)
  }

  /** A leaf whose search succeeded answers from its candidates. */
  lemma LeafAnswers(o: Oracle, path: Path, task: Task, plan: LambdaPlan, hit: SearchHit, run: Run)
    requires o.search(path, task.prompt) == Some(hit) && run == LeafRun(o, path, task, plan)
    ensures AreCandidates(o, hit, CandidateRefs(o, hit), CandidatePaths(o, hit)) && run.outcome.Ok?
    ensures AnswersFrom(o, path, task, plan, hit, CandidateRefs(o, hit), CandidatePaths(o, hit),
                        run.outcome.result, run.calls.loads, run.calls.judgements, run.calls.expansions)
  {
    CandidatesSpec(o, hit);
    var found := FromHit(o, path, task, plan, hit, run);
    SearchAdded(found, run);
    HitAnswers(o, path, task, plan, hit, CandidateRefs(o, hit), CandidatePaths(o, hit), found);
  }

  lemma FromHit(o: Oracle, path: Path, task: Task, plan: LambdaPlan, hit: SearchHit, run: Run) returns (found: Run)
    requires o.search(path, task.prompt) == Some(hit) && run == LeafRun(o, path, task, plan)
    ensures found == HitRun(o, path, task, plan, hit) && run == AfterSearch(found)
  {
    found := HitRun(o, path, task, plan, hit);
  }

  lemma SearchAdded(found: Run, run: Run)
    requires run == AfterSearch(found)
    ensures found.outcome == run.outcome && found.calls.loads == run.calls.loads
    ensures found.calls.judgements == run.calls.judgements && found.calls.expansions == run.calls.expansions
  {}

  lemma HitAnswers(o: Oracle, path: Path, task: Task, plan: LambdaPlan, hit: SearchHit, refs: seq<string>, paths: seq<string>, run: Run)
    requires refs == CandidateRefs(o, hit) && paths == CandidatePaths(o, hit) && run == HitRun(o, path, task, plan, hit)
    ensures run.outcome.Ok?
    ensures AnswersFrom(o, path, task, plan, hit, refs, paths, run.outcome.result, run.calls.loads, run.calls.judgements, run.calls.expansions)
  {
    if SurfaceAnswer(o, path, task, plan, hit).None? {
      var loaded := LoadedRefs(o, plan, hit);
      assert loaded == refs[..run.calls.loads];
      SnippetsSpec(o, path, loaded);
      JudgedAnswers(o, path, task, plan, hit);
    }
  }

  lemma JudgedAnswers(o: Oracle, path: Path, task: Task, plan: LambdaPlan, hit: SearchHit)
    ensures var out := Judged(o, path, task, plan, hit);
            && out.Ok?
            && out.result.evidenceRefs == Unique(hit.surfaceRefs + CandidateRefs(o, hit))
            && out.result.metadata.candidatePaths == CandidatePaths(o, hit)
            && out.result.metadata.answerSeedPaths == Unique(hit.seedPaths) && out.result.metadata.certificateStatuses == hit.statuses
            && JudgedOn(o, path, task, hit, CandidatePaths(o, hit), Snippets(o, path, LoadedRefs(o, plan, hit)), out.result)
  {}

  // ----- the answer of a reduce step

  /** One list of every partial, joined in order. */
  function Of<T>(partials: seq<Result>, list: Result -> seq<T>): seq<T> {
    Concat(seq(|partials|, i requires 0 <= i < |partials| => list(partials[i])))
  }

  function SeedsIn(r: Result): seq<string> { r.metadata.answerSeedPaths }

  function StatusesIn(r: Result): seq<string> { r.metadata.certificateStatuses }

  function CandidatesIn(r: Result): seq<string> { r.metadata.candidatePaths }

  function PathsIn(r: Result): seq<string> { r.retrievedPaths }

  function EvidenceIn(r: Result): seq<string> { r.evidenceRefs }

  lemma OfLast<T>(partials: seq<Result>, list: Result -> seq<T>)
    requires partials != []
    ensures Of(partials, list) == Of(partials[..|partials| - 1], list) + list(partials[|partials| - 1])
  {
    var lists := seq(|partials|, i requires 0 <= i < |partials| => list(partials[i]));
    var init := partials[..|partials| - 1];
    assert lists[..|lists| - 1] == seq(|init|, i requires 0 <= i < |init| => list(init[i]));
  }

  lemma {:induction false} GatherSpec(partials: seq<Result>)
    ensures Gather(partials).seeds == Of(partials, SeedsIn) && Gather(partials).statuses == Of(partials, StatusesIn)
    ensures Gather(partials).candidates == Of(partials, CandidatesIn) && Gather(partials).paths == Of(partials, PathsIn)
    ensures Gather(partials).evidence == Of(partials, EvidenceIn)
  {
    if partials != [] {
      GatherSpec(partials[..|partials| - 1]);
      OfLast(partials, SeedsIn);
      OfLast(partials, StatusesIn);
      OfLast(partials, CandidatesIn);
      OfLast(partials, PathsIn);
      OfLast(partials, EvidenceIn);
    }
  }

  /** Every partial copied a trusted answer surface, every certificate says certified, in any case
      and with any white space around, and there is some certificate and some seed path. */
  ghost predicate AllTrusted(partials: seq<Result>) {
    && partials != [] && (forall p | p in partials :: p.metadata.answerSurface)
    && Of(partials, StatusesIn) != []
    && (forall s | s in Of(partials, StatusesIn) :: SameIgnoringCase(TrimSpace(s), "certified"))
    && exists s | s in Of(partials, SeedsIn) :: TrimSpace(s) != ""
  }

  lemma CertifiedIff(status: string)
    ensures Certified(status) <==> SameIgnoringCase(TrimSpace(status), "certified")
  {
    LowerEqualsIff(TrimSpace(status), "certified");
  }

  lemma LowerEqualsIff(s: string, word: string)
    requires forall i | 0 <= i < |word| :: !('A' <= word[i] <= 'Z')
    ensures ToLower(s) == word <==> SameIgnoringCase(s, word)
  {
    AlreadyLower(word);
    ToLowerComparesIgnoringCase(s, word);
  }

  lemma {:induction false} AlreadyLower(s: string)
    requires forall i | 0 <= i < |s| :: !('A' <= s[i] <= 'Z')
    ensures ToLower(s) == s
  {
    if s != "" { AlreadyLower(s[1..]); }
  }

  lemma UniqueNotEmptyIff(values: seq<string>)
    ensures Unique(values) != [] <==> exists s | s in values :: TrimSpace(s) != ""
  {
    UniqueSpec(values);
    if Unique(values) != [] {
      assert Listed(values, Unique(values)[0]) by { assert Unique(values)[0] in Unique(values); }
      var j :| 0 <= j < |values| && TrimSpace(values[j]) == Unique(values)[0];
      assert values[j] in values;
    }
    if s :| s in values && TrimSpace(s) != "" {
      var j :| 0 <= j < |values| && values[j] == s;
      assert TrimAll(values)[j] == TrimSpace(s);
      assert TrimSpace(s) in Unique(values);
    }
  }

  lemma MergedSurfaceSpec(o: Oracle, partials: seq<Result>)
    ensures MergedSurface(o, partials)
            == if AllTrusted(partials) then o.surfaceAnswer(Unique(Of(partials, SeedsIn)), partials) else None
  {
    GatherSpec(partials);
    UniqueNotEmptyIff(Of(partials, SeedsIn));
    forall s | s in Of(partials, StatusesIn) ensures Certified(s) <==> SameIgnoringCase(TrimSpace(s), "certified") {
      CertifiedIff(s);
    }
  }

  /** The text that the operator itself makes of the partials. */
  ghost predicate IsOwnText(o: Oracle, op: ComposeOp, partials: seq<Result>, text: string) {
    match op
    case Intersection => JoinsShared(text, partials)
    case Chronological => JoinsInTimeOrder(text, partials, o.parseTime)
    case _ => JoinsAnswers(text, partials)
  }

  predicate AsksModelFor(op: ComposeOp) { op.Rerank? || op.Synthesize? }

  lemma OwnText(o: Oracle, path: Path, task: Task, plan: LambdaPlan, partials: seq<Result>)
    requires MergedSurface(o, partials).None? && !AsksModelFor(plan.composeOp)
    ensures IsOwnText(o, plan.composeOp, partials, ComposedAnswer(o, path, task, plan, partials))
  {
    match plan.composeOp
    case Intersection => IntersectionSpec(partials);
    case Chronological => ChronologicalSpec(partials, o.parseTime);
    case _ => UnionSpec(partials);
  }

  /** The text and the tokens of a reduce step that asked the model. */
  ghost predicate Replied(reply: Reply, partials: seq<Result>, spent: Tokens, text: string, tokens: Tokens) {
    match reply
    case Answered(answer, usage) => text == answer && tokens == spent.Plus(usage)
    case Failed(_) => JoinsAnswers(text, partials) && tokens == spent
  }

  lemma ModelText(o: Oracle, path: Path, task: Task, plan: LambdaPlan, partials: seq<Result>, spent: Tokens)
    requires MergedSurface(o, partials).None? && AsksModelFor(plan.composeOp)
    ensures Replied(o.compose(path, task.prompt, partials), partials, spent, ComposedAnswer(o, path, task, plan, partials),
                    spent.Plus(ChargedTokens(ComposeReply(o, path, task, plan, partials))))
  {
    UnionSpec(partials);
  }

  /** The answer merged from the partials' own surfaces, if all of them can be trusted. */
  ghost function TrustedMerge(o: Oracle, partials: seq<Result>): Option<string> {
    if AllTrusted(partials) then o.surfaceAnswer(Unique(Of(partials, SeedsIn)), partials) else None
  }

  /** Trusted surfaces are merged without the model; rerank and synthesize give its answer, or the
      union if it fails; the other operators never ask. */
  ghost predicate ReducesTo(o: Oracle, path: Path, task: Task, plan: LambdaPlan, partials: seq<Result>, merged: Option<string>,
                            text: string, tokens: Tokens, asked: nat) {
    var spent := Gather(partials).tokens;
    match merged
    case Some(answer) => asked == 0 && text == answer && tokens == spent
    case None =>
      if AsksModelFor(plan.composeOp)
      then asked == 1 && Replied(o.compose(path, task.prompt, partials), partials, spent, text, tokens)
      else asked == 0 && tokens == spent && IsOwnText(o, plan.composeOp, partials, text)
  }

  /** What a reduce step answers, what it costs, and whether it asks the model. */
  lemma ReduceAnswers(o: Oracle, path: Path, task: Task, plan: LambdaPlan, partials: seq<Result>, childErrors: nat)
    ensures var r := Reduced(o, path, task, plan, partials, childErrors);
            ReducesTo(o, path, task, plan, partials, TrustedMerge(o, partials),
                      r.answer, r.metadata.tokens, ReduceCalls(o, path, task, plan, partials).reduces)
  {
    MergedSurfaceSpec(o, partials);
    var tokens := Gather(partials).tokens.Plus(ChargedTokens(ComposeReply(o, path, task, plan, partials)));
    ComposedAnswers(o, path, task, plan, partials, TrustedMerge(o, partials), ComposedAnswer(o, path, task, plan, partials), tokens);
  }

  lemma ComposedAnswers(o: Oracle, path: Path, task: Task, plan: LambdaPlan, partials: seq<Result>, merged: Option<string>, text: string, tokens: Tokens)
    requires merged == MergedSurface(o, partials) && text == ComposedAnswer(o, path, task, plan, partials)
    requires tokens == Gather(partials).tokens.Plus(ChargedTokens(ComposeReply(o, path, task, plan, partials)))
    ensures ReducesTo(o, path, task, plan, partials, merged, text, tokens, ReduceCalls(o, path, task, plan, partials).reduces)
  {
    if merged.None? {
      if AsksModelFor(plan.composeOp) {
        ModelText(o, path, task, plan, partials, Gather(partials).tokens);
      } else {
        OwnText(o, path, task, plan, partials);
      }
    }
  }

  /** What a reduce step hands on: evidence, paths, seeds and certificates of its partials, each
      once, and its number of failed children. */
  lemma ReduceReports(o: Oracle, path: Path, task: Task, plan: LambdaPlan, partials: seq<Result>, childErrors: nat)
    ensures var r := Reduced(o, path, task, plan, partials, childErrors);
            var candidates := Of(partials, CandidatesIn);
            && r.evidenceRefs == Unique(Of(partials, EvidenceIn))
            && r.metadata.answerSeedPaths == Unique(Of(partials, SeedsIn))
            && r.metadata.certificateStatuses == Unique(Of(partials, StatusesIn))
            && r.metadata.childErrors == childErrors && !r.metadata.answerSurface && !r.metadata.noPartials
            && ArePathsOf(o, r.answer, if exists p | p in candidates :: TrimSpace(p) != "" then candidates else Of(partials, PathsIn), r.retrievedPaths)
  {
    GatherSpec(partials);
    UniqueNotEmptyIff(Of(partials, CandidatesIn));
    UniqueOfUniques(Of(partials, CandidatesIn), []);
    UniqueOfUniques(Of(partials, PathsIn), []);
  }
}
