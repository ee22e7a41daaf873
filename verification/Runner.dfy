/**
 Leaves, splits and reduce steps of the recursive executor (internal/rlm/lambda_runner.go)
 against arbitrary tools and an arbitrary model, whose replies may depend on the node of
 the tree and on everything the code passes to them.

 `ExecutePhi` runs the children of a node in an arbitrary order over shared arrays and a
 shared call meter, and is proved against the left-to-right run of the same behaviour.
 */
module Runner {
  import opened Saturating
  import opened Options
  import opened Text
  import opened Planner
  import opened QueryVariants
  import opened Compose
  import opened PhiTree

  /** What the code extracts from a search result. */
  datatype SearchHit = SearchHit(
    surfaceRefs: seq<string>, objectRefs: seq<string>, paths: seq<string>, text: string,
    answerSurface: seq<string> -> Option<string>, seedPaths: seq<string>, statuses: seq<string>)

  datatype Reply = Answered(text: string, usage: Tokens) | Failed(usage: Tokens)

  /** Tools, model and opaque text functions.  None is a tool error. */
  datatype Oracle = Oracle(
    search: (Path, string) -> Option<SearchHit>,
    graphTrusted: (Path, string, seq<string>) -> bool,
    load: (Path, string) -> Option<string>,
    judge: (Path, string, string) -> Reply,
    compose: (Path, string, seq<Result>) -> Reply,
    normalizePath: string -> string,
    answerPaths: string -> seq<string>,
    surfaceAnswer: (seq<string>, seq<Result>) -> Option<string>,
    parseTime: string -> int,
    formulator: Formulator)

  // ----- leaf

  /** The references that normalize to a path, as those paths. */
  function NormalizedPaths(o: Oracle, refs: seq<string>): seq<string> {
    if refs == [] then []
    else
      var path := o.normalizePath(refs[|refs| - 1]);
      NormalizedPaths(o, refs[..|refs| - 1]) + if path != "" then [path] else []
  }

  function PathRefs(paths: seq<string>): seq<string> {
    if paths == [] then []
    else
      var path := TrimSpace(paths[|paths| - 1]);
      PathRefs(paths[..|paths| - 1]) + if path != "" then ["path:" + path] else []
  }

  /** Candidate paths: those the references name, else those found in the payload. */
  function CandidatePaths(o: Oracle, hit: SearchHit): seq<string> {
    var named := Unique(NormalizedPaths(o, Unique(hit.objectRefs)));
    if named == [] then Unique(hit.paths) else named
  }

  function CandidateRefs(o: Oracle, hit: SearchHit): seq<string> {
    if Unique(NormalizedPaths(o, Unique(hit.objectRefs))) == [] then PathRefs(Unique(hit.paths))
    else Unique(hit.objectRefs)
  }

  predicate GraphRequired(task: Task, plan: LambdaPlan) {
    plan.taskType == CodeUnderstand || task.wantsGraph
  }

  function FirstRefs(refs: seq<string>, limit: int): seq<string> {
    if limit > 0 && |refs| > limit then refs[..limit] else refs
  }

  predicate GraphCalled(o: Oracle, task: Task, plan: LambdaPlan, hit: SearchHit) {
    GraphRequired(task, plan) && CandidateRefs(o, hit) != []
  }

  /** Without roots there is no graph, and a missing graph is not trusted. */
  predicate GraphTrusted(o: Oracle, path: Path, task: Task, plan: LambdaPlan, hit: SearchHit) {
    CandidateRefs(o, hit) != [] && o.graphTrusted(path, task.prompt, FirstRefs(CandidateRefs(o, hit), plan.tauStar))
  }

  /** The answer copied from a trusted answer surface, if the leaf may use it. */
  function SurfaceAnswer(o: Oracle, path: Path, task: Task, plan: LambdaPlan, hit: SearchHit): Option<string> {
    if !GraphRequired(task, plan) || GraphTrusted(o, path, task, plan, hit) then hit.answerSurface(CandidatePaths(o, hit))
    else None
  }

  /** The references a leaf loads. */
  function LoadedRefs(o: Oracle, plan: LambdaPlan, hit: SearchHit): (refs: seq<string>)
    ensures |refs| <= Max(0, plan.tauStar)
  {
    FirstN(CandidateRefs(o, hit), plan.tauStar)
  }

  function FirstN(refs: seq<string>, limit: int): (first: seq<string>)
    ensures |first| <= Max(0, limit)
  {
    refs[..Min(|refs|, Max(0, limit))]
  }

  function Snippets(o: Oracle, path: Path, refs: seq<string>): seq<string> {
    if refs == [] then []
    else
      var ref := refs[|refs| - 1];
      var reply := o.load(path, ref);
      Snippets(o, path, refs[..|refs| - 1])
      + if reply.Some? && reply.value != "" then ["Evidence: " + ref + "\n" + reply.value] else []
  }

  function EvidenceBlock(snippets: seq<string>, hit: SearchHit): string {
    if snippets != [] then Join(snippets, "\n---\n") else hit.text
  }

  /** The answer's own paths, or the candidates when it names none. */
  function SelectPaths(o: Oracle, answer: string, candidates: seq<string>): seq<string> {
    if o.answerPaths(answer) == [] then Unique(candidates) else o.answerPaths(answer)
  }

  function LeafEvidence(o: Oracle, hit: SearchHit): seq<string> {
    Unique(hit.surfaceRefs + CandidateRefs(o, hit))
  }

  function LeafResult(o: Oracle, hit: SearchHit, answer: string, paths: seq<string>, subcalls: nat, surface: bool, usage: Tokens): Result {
    Result(answer, LeafEvidence(o, hit), paths, 1, subcalls,
           Metadata(surface, CandidatePaths(o, hit), Unique(hit.seedPaths), hit.statuses, usage, 0, false, ""))
  }

  /** The result of judging the loaded evidence; a failed judgement falls back to the search text. */
  function Judged(o: Oracle, path: Path, task: Task, plan: LambdaPlan, hit: SearchHit): Outcome {
    var snippets := Snippets(o, path, LoadedRefs(o, plan, hit));
    match o.judge(path, task.prompt, EvidenceBlock(snippets, hit))
    case Failed(usage) => Ok(LeafResult(o, hit, hit.text, CandidatePaths(o, hit), 1, false, usage))
    case Answered(answer, usage) =>
      Ok(LeafResult(o, hit, answer, SelectPaths(o, answer, CandidatePaths(o, hit)), 1 + |snippets|, false, usage))
  }

  /** A leaf whose search succeeded. */
  function HitRun(o: Oracle, path: Path, task: Task, plan: LambdaPlan, hit: SearchHit): Run {
    var expansions: nat := if GraphCalled(o, task, plan, hit) then 1 else 0;
    match SurfaceAnswer(o, path, task, plan, hit)
    case Some(answer) =>
      Run(Ok(LeafResult(o, hit, answer, CandidatePaths(o, hit), 1, true, NO_TOKENS)), Calls(0, 0, 0, 0, expansions))
    case None =>
      Run(Judged(o, path, task, plan, hit), Calls(0, |LoadedRefs(o, plan, hit)|, 1, 0, expansions))
  }

  function LeafRun(o: Oracle, path: Path, task: Task, plan: LambdaPlan): Run {
    match o.search(path, task.prompt)
    case None => Run(Err, ONE_SEARCH)
    case Some(hit) => AfterSearch(HitRun(o, path, task, plan, hit))
  }

  function AfterSearch(run: Run): Run { Run(run.outcome, ONE_SEARCH.Plus(run.calls)) }

  const ONE_SEARCH := Calls(1, 0, 0, 0, 0)

  // ----- reduce

  /** The sums and concatenations a reduce step builds over its partials. */
  datatype Gathered = Gathered(
    evidence: seq<string>, paths: seq<string>, candidates: seq<string>, seeds: seq<string>, statuses: seq<string>,
    iterations: nat, subcalls: nat, tokens: Tokens)

  function Gather(partials: seq<Result>): Gathered {
    if partials == [] then Gathered([], [], [], [], [], 0, 0, NO_TOKENS)
    else
      var g, p := Gather(partials[..|partials| - 1]), partials[|partials| - 1];
      Gathered(
        g.evidence + p.evidenceRefs, g.paths + p.retrievedPaths, g.candidates + p.metadata.candidatePaths,
        g.seeds + p.metadata.answerSeedPaths, g.statuses + p.metadata.certificateStatuses,
        g.iterations + p.iterations, g.subcalls + p.subcalls, g.tokens.Plus(p.metadata.tokens))
  }

  predicate Certified(status: string) {
    ToLower(TrimSpace(status)) == "certified"
  }

  /** The merged answer when every partial came from a certified answer surface. */
  function MergedSurface(o: Oracle, partials: seq<Result>): Option<string> {
    SurfaceOf(o, partials, Gather(partials).seeds, Gather(partials).statuses)
  }

  function SurfaceOf(o: Oracle, partials: seq<Result>, seeds: seq<string>, statuses: seq<string>): Option<string> {
    if partials == [] || seeds == [] then None
    else if exists p | p in partials :: !p.metadata.answerSurface then None
    else if statuses == [] || exists s | s in statuses :: !Certified(s) then None
    else if Unique(seeds) == [] then None
    else o.surfaceAnswer(Unique(seeds), partials)
  }

  /** The reply of the one model call of a reduce step, if it makes that call. */
  function ComposeReply(o: Oracle, path: Path, task: Task, plan: LambdaPlan, partials: seq<Result>): Option<Reply> {
    if MergedSurface(o, partials).None? && (plan.composeOp.Rerank? || plan.composeOp.Synthesize?)
    then Some(o.compose(path, task.prompt, partials))
    else None
  }

  function ComposedAnswer(o: Oracle, path: Path, task: Task, plan: LambdaPlan, partials: seq<Result>): string {
    match MergedSurface(o, partials)
    case Some(answer) => answer
    case None =>
      match ComposeReply(o, path, task, plan, partials)
      case Some(Answered(text, _)) => text
      case Some(Failed(_)) => UnionText(partials)
      case None =>
        match plan.composeOp
        case Intersection => IntersectionText(partials)
        case Chronological => ChronologicalText(partials, o.parseTime)
        case _ => UnionText(partials)
  }

  /** Usage is charged only for a call that answered. */
  function ChargedTokens(reply: Option<Reply>): Tokens {
    match reply
    case Some(Answered(_, usage)) => usage
    case _ => NO_TOKENS
  }

  function ReduceCandidates(g: Gathered): seq<string> {
    if Unique(g.candidates) == [] then Unique(g.paths) else Unique(g.candidates)
  }

  function Reduced(o: Oracle, path: Path, task: Task, plan: LambdaPlan, partials: seq<Result>, childErrors: nat): Result {
    var g := Gather(partials);
    var answer := ComposedAnswer(o, path, task, plan, partials);
    Result(
      answer, Unique(g.evidence), SelectPaths(o, answer, ReduceCandidates(g)), g.iterations, g.subcalls,
      Metadata(false, [], Unique(g.seeds), Unique(g.statuses),
               g.tokens.Plus(ChargedTokens(ComposeReply(o, path, task, plan, partials))), childErrors, false, ""))
  }

  // ----- the behaviour of the nodes

  function ChildTask(o: Oracle, task: Task, plan: LambdaPlan, i: nat): Task {
    var variants := Variants(o.formulator, task.prompt, plan.kStar);
    Task(if i < |variants| then variants[i] else task.prompt, task.wantsGraph)
  }

  function ReduceCalls(o: Oracle, path: Path, task: Task, plan: LambdaPlan, partials: seq<Result>): Calls {
    Calls(0, 0, 0, if ComposeReply(o, path, task, plan, partials).Some? then 1 else 0, 0)
  }

  function BehaviourOf(o: Oracle): Behaviour {
    Behaviour(
      (path: Path, task: Task, plan: LambdaPlan) => LeafRun(o, path, task, plan),
      (task: Task, plan: LambdaPlan, i: nat) => ChildTask(o, task, plan, i),
      (path: Path, task: Task, plan: LambdaPlan, partials: seq<Result>, childErrors: nat) =>
        Run(Ok(Reduced(o, path, task, plan, partials, childErrors)), ReduceCalls(o, path, task, plan, partials)))
  }

  // ----- the program

  /** Every call to a tool or to the model passes here. */
  class Meter {
    var calls: Calls

    constructor ()
      ensures calls == NO_CALLS
    {
      calls := NO_CALLS;
    }

    method Charge(made: Calls)
      modifies this
      ensures calls == old(calls).Plus(made)
    {
      calls := calls.Plus(made);
    }
  }

  method PathsToEvidenceRefs(paths: seq<string>) returns (refs: seq<string>)
    ensures refs == PathRefs(paths)
  {
    refs := [];
    for i := 0 to |paths|
      invariant refs == PathRefs(paths[..i])
    {
      assert paths[..i + 1][..i] == paths[..i];
      var path := TrimSpace(paths[i]);
      if path != "" { refs := refs + ["path:" + path]; }
    }
    assert paths[..|paths|] == paths;
  }

  method EvidenceRefsToPaths(o: Oracle, refs: seq<string>) returns (paths: seq<string>)
    ensures paths == Unique(NormalizedPaths(o, refs))
  {
    paths := [];
    for i := 0 to |refs|
      invariant paths == NormalizedPaths(o, refs[..i])
    {
      assert refs[..i + 1][..i] == refs[..i];
      var normalized := o.normalizePath(refs[i]);
      if normalized != "" { paths := paths + [normalized]; }
    }
    assert refs[..|refs|] == refs;
    paths := UniqueStringsRLM(paths);
  }

  /** Steps 1 and 2 of a leaf: candidate references, and the paths they name. */
  method FindCandidates(o: Oracle, hit: SearchHit) returns (candidateRefs: seq<string>, candidates: seq<string>)
    ensures candidateRefs == CandidateRefs(o, hit) && candidates == CandidatePaths(o, hit)
  {
    candidateRefs := UniqueStringsRLM(hit.objectRefs);
    candidates := EvidenceRefsToPaths(o, candidateRefs);
    if candidates == [] {
      candidates := UniqueStringsRLM(hit.paths);
      candidateRefs := PathsToEvidenceRefs(candidates);
    }
  }

  /** Stops at tauStar; a failed load still counts as a call. */
  method LoadSnippets(o: Oracle, path: Path, limit: Int64, candidateRefs: seq<string>, meter: Meter)
    returns (snippets: seq<string>)
    modifies meter
    ensures snippets == Snippets(o, path, FirstN(candidateRefs, limit))
    ensures meter.calls == old(meter.calls).Plus(Calls(0, |FirstN(candidateRefs, limit)|, 0, 0, 0))
  {
    snippets := [];
    var n := 0;
    for i := 0 to |candidateRefs|
      invariant n == i <= Max(0, limit)
      invariant snippets == Snippets(o, path, candidateRefs[..i])
      invariant meter.calls == old(meter.calls).(loads := old(meter.calls).loads + i)
    {
      assert candidateRefs[..i + 1][..i] == candidateRefs[..i];
      if i >= limit { break; }
      var ref := candidateRefs[i];
      meter.Charge(ONE_LOAD);
      var reply := o.load(path, ref);
      if reply.Some? && reply.value != "" {
        snippets := snippets + ["Evidence: " + ref + "\n" + reply.value];
      }
      n := i + 1;
    }
    assert candidateRefs[..n] == FirstN(candidateRefs, limit);
  }

  const ONE_LOAD := Calls(0, 1, 0, 0, 0)

  method Leaf(o: Oracle, path: Path, task: Task, plan: LambdaPlan, meter: Meter) returns (outcome: Outcome)
    modifies meter
    ensures outcome == LeafRun(o, path, task, plan).outcome
    ensures meter.calls == old(meter.calls).Plus(LeafRun(o, path, task, plan).calls)
  {
    meter.Charge(ONE_SEARCH);
    var searchResult := o.search(path, task.prompt);
    if searchResult.None? { return Err; }
    var hit := searchResult.value;
    outcome := AnswerFromHit(o, path, task, plan, hit, meter);
    PlusAssociative(old(meter.calls), ONE_SEARCH, HitRun(o, path, task, plan, hit).calls);
  }

  /** A trusted answer surface is copied; otherwise the model judges the loaded evidence. */
  method AnswerFromHit(o: Oracle, path: Path, task: Task, plan: LambdaPlan, hit: SearchHit, meter: Meter) returns (outcome: Outcome)
    modifies meter
    ensures outcome == HitRun(o, path, task, plan, hit).outcome
    ensures meter.calls == old(meter.calls).Plus(HitRun(o, path, task, plan, hit).calls)
  {
    var candidateRefs, candidates := FindCandidates(o, hit);
    var graphRequired := GraphRequired(task, plan);
    var graphTrusted := true;
    if graphRequired {
      graphTrusted := ExpandContextGraph(o, path, task, plan, candidateRefs, meter);
    }
    var answerSurface := hit.answerSurface(candidates);
    if answerSurface.Some? && (!graphRequired || graphTrusted) {
      return Ok(LeafResult(o, hit, answerSurface.value, candidates, 1, true, NO_TOKENS));
    }
    outcome := JudgeCandidates(o, path, task, plan, hit, candidateRefs, candidates, meter);
  }

  /** Without roots the graph tool is not called. */
  method ExpandContextGraph(o: Oracle, path: Path, task: Task, plan: LambdaPlan, roots: seq<string>, meter: Meter)
    returns (trusted: bool)
    modifies meter
    ensures trusted == (roots != [] && o.graphTrusted(path, task.prompt, FirstRefs(roots, plan.tauStar)))
    ensures meter.calls == old(meter.calls).Plus(Calls(0, 0, 0, 0, if roots != [] then 1 else 0))
  {
    if roots == [] { return false; }
    meter.Charge(Calls(0, 0, 0, 0, 1));
    trusted := o.graphTrusted(path, task.prompt, FirstRefs(roots, plan.tauStar));
  }

  /** Load the first candidates and ask the model to judge them. */
  method JudgeCandidates(o: Oracle, path: Path, task: Task, plan: LambdaPlan, hit: SearchHit,
                         candidateRefs: seq<string>, candidates: seq<string>, meter: Meter) returns (outcome: Outcome)
    requires candidateRefs == CandidateRefs(o, hit) && candidates == CandidatePaths(o, hit)
    modifies meter
    ensures outcome == Judged(o, path, task, plan, hit)
    ensures meter.calls == old(meter.calls).Plus(Calls(0, |LoadedRefs(o, plan, hit)|, 1, 0, 0))
  {
    var snippets := LoadSnippets(o, path, plan.tauStar, candidateRefs, meter);
    meter.Charge(Calls(0, 0, 1, 0, 0));
    match o.judge(path, task.prompt, EvidenceBlock(snippets, hit)) {
      case Failed(usage) =>
        outcome := Ok(LeafResult(o, hit, hit.text, candidates, 1, false, usage));
      case Answered(answer, usage) =>
        outcome := Ok(LeafResult(o, hit, answer, SelectPaths(o, answer, candidates), 1 + |snippets|, false, usage));
    }
  }

  method Split(o: Oracle, task: Task, plan: LambdaPlan) returns (tasks: seq<Task>)
    requires plan.kStar >= 2
    ensures |tasks| == plan.kStar
    ensures forall i | 0 <= i < plan.kStar :: tasks[i] == ChildTask(o, task, plan, i)
    ensures forall i | 0 <= i < plan.kStar :: tasks[i] == Task(Variants(o.formulator, task.prompt, plan.kStar)[i], task.wantsGraph)
  {
    var variants := QueryVariants.QueryVariants(o.formulator, task.prompt, plan.kStar);
    VariantsSpec(o.formulator, task.prompt, plan.kStar);
    tasks := [];
    for i := 0 to |variants|
      invariant |tasks| == i && forall j | 0 <= j < i :: tasks[j] == Task(variants[j], task.wantsGraph)
    {
      tasks := tasks + [Task(variants[i], task.wantsGraph)];
    }
  }

  method DeterministicAnswerSurface(o: Oracle, partials: seq<Result>, seeds: seq<string>, statuses: seq<string>)
    returns (answer: Option<string>)
    ensures answer == SurfaceOf(o, partials, seeds, statuses)
  {
    if partials == [] || seeds == [] { return None; }
    for i := 0 to |partials|
      invariant forall p | p in partials[..i] :: p.metadata.answerSurface
    {
      if !partials[i].metadata.answerSurface { return None; }
    }
    assert partials[..|partials|] == partials;
    if statuses == [] { return None; }
    for i := 0 to |statuses|
      invariant forall s | s in statuses[..i] :: Certified(s)
    {
      if !Certified(statuses[i]) { return None; }
    }
    assert statuses[..|statuses|] == statuses;
    var paths := UniqueStringsRLM(seeds);
    if paths == [] { return None; }
    answer := o.surfaceAnswer(paths, partials);
  }

  method GatherPartials(partials: seq<Result>) returns (g: Gathered)
    ensures g == Gather(partials)
  {
    var evidence, paths, candidates, seeds, statuses: seq<string> := [], [], [], [], [];
    var iterations: nat, subcalls: nat := 0, 0;
    var tokens := NO_TOKENS;
    for i := 0 to |partials|
      invariant Gathered(evidence, paths, candidates, seeds, statuses, iterations, subcalls, tokens) == Gather(partials[..i])
    {
      assert partials[..i + 1][..i] == partials[..i];
      var p := partials[i];
      evidence := evidence + p.evidenceRefs;
      paths := paths + p.retrievedPaths;
      candidates := candidates + p.metadata.candidatePaths;
      seeds := seeds + p.metadata.answerSeedPaths;
      statuses := statuses + p.metadata.certificateStatuses;
      iterations := iterations + p.iterations;
      subcalls := subcalls + p.subcalls;
      tokens := tokens.Plus(p.metadata.tokens);
    }
    assert partials[..|partials|] == partials;
    g := Gathered(evidence, paths, candidates, seeds, statuses, iterations, subcalls, tokens);
  }

  /** The answer of a reduce step, with the usage to charge for it. */
  method ComposeAnswer(o: Oracle, path: Path, task: Task, plan: LambdaPlan, partials: seq<Result>, surface: Option<string>, meter: Meter)
    returns (answer: string, usage: Tokens)
    requires surface == MergedSurface(o, partials)
    modifies meter
    ensures answer == ComposedAnswer(o, path, task, plan, partials)
    ensures usage == ChargedTokens(ComposeReply(o, path, task, plan, partials))
    ensures meter.calls == old(meter.calls).Plus(ReduceCalls(o, path, task, plan, partials))
  {
    usage := NO_TOKENS;
    if surface.Some? {
      answer := surface.value;
    } else if plan.composeOp.Intersection? {
      var shared;
      answer, shared := ComposeIntersection(partials);
    } else if plan.composeOp.Chronological? {
      answer := ComposeChronological(partials, o.parseTime);
    } else if plan.composeOp.Rerank? || plan.composeOp.Synthesize? {
      meter.Charge(Calls(0, 0, 0, 1, 0));
      match o.compose(path, task.prompt, partials) {
        case Failed(_) => answer := ComposeUnion(partials);
        case Answered(text, charged) => answer, usage := text, charged;
      }
    } else {
      answer := ComposeUnion(partials);
    }
  }

  method Reduce(o: Oracle, path: Path, task: Task, plan: LambdaPlan, partials: seq<Result>, childErrors: nat, meter: Meter)
    returns (result: Result)
    modifies meter
    ensures result == Reduced(o, path, task, plan, partials, childErrors)
    ensures meter.calls == old(meter.calls).Plus(ReduceCalls(o, path, task, plan, partials))
  {
    var g := GatherPartials(partials);
    var evidence := UniqueStringsRLM(g.evidence);
    var paths := UniqueStringsRLM(g.paths);
    var candidatePaths := UniqueStringsRLM(g.candidates);
    if candidatePaths == [] { candidatePaths := paths; }
    var surface := DeterministicAnswerSurface(o, partials, g.seeds, g.statuses);
    var answer, usage := ComposeAnswer(o, path, task, plan, partials, surface, meter);
    var seeds := UniqueStringsRLM(g.seeds);
    var statuses := UniqueStringsRLM(g.statuses);
    result := Result(
      answer, evidence, SelectPaths(o, answer, candidatePaths), g.iterations, g.subcalls,
      Metadata(false, [], seeds, statuses, g.tokens.Plus(usage), childErrors, false, ""));
  }

  lemma PhiOfLeaf(o: Oracle, path: Path, task: Task, plan: LambdaPlan)
    requires plan.depth >= 0 && IsLeaf(plan)
    ensures Phi(BehaviourOf(o), path, task, plan) == LeafRun(o, path, task, plan)
  {}

  lemma PhiOfNode(o: Oracle, path: Path, task: Task, plan: LambdaPlan, runs: seq<Run>)
    requires plan.depth >= 1 && !IsLeaf(plan) && runs == ChildRuns(BehaviourOf(o), path, task, plan)
    ensures Successes(runs) == [] ==>
              Phi(BehaviourOf(o), path, task, plan) == Run(Ok(NoPartials(Errors(runs))), TotalCalls(runs))
    ensures Successes(runs) != [] ==>
              Phi(BehaviourOf(o), path, task, plan)
              == Run(Ok(Reduced(o, path, task, plan, Successes(runs), Errors(runs))),
                     TotalCalls(runs).Plus(ReduceCalls(o, path, task, plan, Successes(runs))))
  {}

  /** The outcome and the calls of a node are those of its left-to-right run. */
  method ExecutePhi(o: Oracle, ghost b: Behaviour, path: Path, task: Task, plan: LambdaPlan, meter: Meter)
    returns (outcome: Outcome)
    requires plan.depth >= 0 && b == BehaviourOf(o)
    modifies meter
    ensures outcome == Phi(b, path, task, plan).outcome
    ensures meter.calls == old(meter.calls).Plus(Phi(b, path, task, plan).calls)
    decreases plan.depth, 1
  {
    if plan.depth == 0 || plan.kStar <= 1 {
      PhiOfLeaf(o, path, task, plan);
      outcome := Leaf(o, path, task, plan, meter);
      return;
    }
    ghost var runs := ChildRuns(b, path, task, plan);
    PhiOfNode(o, path, task, plan, runs);
    var partials, childErrorCount := MapChildren(o, b, path, task, plan, meter, runs);
    if partials == [] {
      return Ok(NoPartials(childErrorCount));
    }
    var result := Reduce(o, path, task, plan, partials, childErrorCount, meter);
    PlusAssociative(old(meter.calls), TotalCalls(runs), ReduceCalls(o, path, task, plan, partials));
    outcome := Ok(result);
  }

  method RunChild(o: Oracle, ghost b: Behaviour, path: Path, task: Task, plan: LambdaPlan, chunk: Task, i: nat, meter: Meter, ghost run: Run)
    returns (outcome: Outcome)
    requires plan.depth >= 1 && plan.kStar >= 2 && i < plan.kStar && b == BehaviourOf(o)
    requires chunk == ChildTask(o, task, plan, i) && run == ChildRuns(b, path, task, plan)[i]
    modifies meter
    ensures outcome == run.outcome && meter.calls == old(meter.calls).Plus(run.calls)
    decreases plan.depth, 0, 0
  {
    outcome := ExecutePhi(o, b, path + [i], chunk, ChildPlan(plan), meter);
  }

  /** The state the goroutines of one node share; every update happens under the lock. */
  class Partials {
    const partialsByIndex: array<Result>
    const partialOK: array<bool>
    var childErrorCount: nat

    constructor (n: nat)
      ensures fresh(partialsByIndex) && fresh(partialOK)
      ensures partialsByIndex.Length == partialOK.Length == n && childErrorCount == 0
      ensures forall i | 0 <= i < n :: !partialOK[i]
    {
      partialsByIndex := new Result[n](_ => NoPartials(0));
      partialOK := new bool[n](_ => false);
      childErrorCount := 0;
    }

    /** Exactly the children marked done have reported, each with its own run. */
    ghost predicate Holds(runs: seq<Run>, done: seq<bool>)
      reads this, partialsByIndex, partialOK
    {
      && |runs| == |done| == partialsByIndex.Length == partialOK.Length
      && (forall i | 0 <= i < |done| :: partialOK[i] == (done[i] && runs[i].outcome.Ok?))
      && (forall i | 0 <= i < |done| && partialOK[i] :: partialsByIndex[i] == runs[i].outcome.result)
      && childErrorCount == DoneErrors(runs, done, |runs|)
    }

    method Report(index: nat, outcome: Outcome, ghost runs: seq<Run>, ghost done: seq<bool>)
      requires Holds(runs, done) && index < |done| && !done[index] && outcome == runs[index].outcome
      modifies this, partialsByIndex, partialOK
      ensures Holds(runs, done[index := true])
    {
      TallyStep(runs, done, index, |runs|);
      if outcome.Err? {
        childErrorCount := childErrorCount + 1;
      } else {
        partialsByIndex[index] := outcome.result;
        partialOK[index] := true;
      }
    }

    method Collect(ghost runs: seq<Run>, ghost done: seq<bool>) returns (partials: seq<Result>)
      requires Holds(runs, done) && forall i | 0 <= i < |done| :: done[i]
      ensures partials == Successes(runs) && childErrorCount == Errors(runs)
    {
      AllDone(runs, done, |runs|);
      partials := [];
      for i := 0 to partialsByIndex.Length
        invariant partials == Successes(runs[..i])
      {
        assert runs[..i + 1][..i] == runs[..i];
        if partialOK[i] { partials := partials + [partialsByIndex[i]]; }
      }
      assert runs[..|runs|] == runs;
    }
  }

  /** Children run and report in an arbitrary order; partials and error count do not depend on it. */
  method MapChildren(o: Oracle, ghost b: Behaviour, path: Path, task: Task, plan: LambdaPlan, meter: Meter, ghost runs: seq<Run>)
    returns (partials: seq<Result>, childErrorCount: nat)
    requires plan.depth >= 1 && plan.kStar >= 2 && b == BehaviourOf(o)
    requires runs == ChildRuns(b, path, task, plan)
    modifies meter
    ensures partials == Successes(runs) && childErrorCount == Errors(runs)
    ensures meter.calls == old(meter.calls).Plus(TotalCalls(runs))
    decreases plan.depth, 0, 1
  {
    var chunks := Split(o, task, plan);
    var n := |chunks|;
    var shared := new Partials(n);
    var done: seq<bool> := seq(n, _ => false);
    NoneDone(runs, done, n);
    while exists i | 0 <= i < n :: !done[i]
      invariant |done| == n && shared.Holds(runs, done)
      invariant meter.calls == old(meter.calls).Plus(DoneCalls(runs, done, n))
      decreases Undone(done, n)
    {
      var index: nat :| index < n && !done[index];
      ReportOne(old(meter.calls), runs, done, index);
      var childOutcome := RunChild(o, b, path, task, plan, chunks[index], index, meter, runs[index]);
      shared.Report(index, childOutcome, runs, done);
      done := done[index := true];
    }
    AllDone(runs, done, n);
    assert runs[..n] == runs;
    partials := shared.Collect(runs, done);
    childErrorCount := shared.childErrorCount;
  }
}
