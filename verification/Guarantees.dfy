/**
 The guarantees of the lambda runner (internal/rlm/lambda_runner.go) for every oracle.
 */
module Guarantees {
  import opened Saturating
  import opened Options
  import opened Text
  import opened Planner
  import opened Compose
  import opened PhiTree
  import opened PhiTheorems
  import opened Runner
  import opened Schedule
  import opened QueryVariants
  import opened NodeAnswers

  // ----- the runner's nodes keep what the tree theorems ask for

  lemma LeafMeters(o: Oracle, path: Path, task: Task, plan: LambdaPlan)
    ensures var c := LeafRun(o, path, task, plan).calls;
            c.searches == 1 && c.judgements <= 1 && c.expansions <= 1 && c.reduces == 0 && c.loads <= Max(0, plan.tauStar)
  {}

  lemma RunnerIsMetered(o: Oracle)
    ensures Metered(BehaviourOf(o))
  {
    forall path: Path, task: Task, plan: LambdaPlan
      ensures var c := BehaviourOf(o).leaf(path, task, plan).calls;
              c.searches == 1 && c.judgements <= 1 && c.expansions <= 1 && c.reduces == 0 && c.loads <= Max(0, plan.tauStar)
    {
      LeafMeters(o, path, task, plan);
    }
  }

  lemma {:induction false} GatherIsSum(partials: seq<Result>)
    ensures SumResults(IterationsOf, partials) == Gather(partials).iterations
    ensures SumResults(SubcallsOf, partials) == Gather(partials).subcalls
    ensures PartialRefs(partials) == Gather(partials).evidence
  {
    if partials != [] { GatherIsSum(partials[..|partials| - 1]); }
  }

  lemma {:induction false} GatherTokens(partials: seq<Result>)
    ensures SumResults(InputOf, partials) == Gather(partials).tokens.input
    ensures SumResults(OutputOf, partials) == Gather(partials).tokens.output
    ensures SumResults(TotalOf, partials) == Gather(partials).tokens.total
  {
    if partials != [] { GatherTokens(partials[..|partials| - 1]); }
  }

  function IterationsOf(outcome: Outcome): int { if outcome.Ok? then outcome.result.iterations else 0 }

  function SubcallsOf(outcome: Outcome): int { if outcome.Ok? then outcome.result.subcalls else 0 }

  function InputOf(outcome: Outcome): int { if outcome.Ok? then outcome.result.metadata.tokens.input else 0 }

  function OutputOf(outcome: Outcome): int { if outcome.Ok? then outcome.result.metadata.tokens.output else 0 }

  function TotalOf(outcome: Outcome): int { if outcome.Ok? then outcome.result.metadata.tokens.total else 0 }

  /** The usage of a reduce step's model call, when it answered. */
  function UsageAt(o: Oracle, path: Path, task: Task, plan: LambdaPlan, partials: seq<Result>): Tokens {
    ChargedTokens(ComposeReply(o, path, task, plan, partials))
  }

  const NO_CHARGE: Charge := (path: Path, task: Task, plan: LambdaPlan, partials: seq<Result>) => 0

  function InputCharge(o: Oracle): Charge {
    (path: Path, task: Task, plan: LambdaPlan, partials: seq<Result>) => UsageAt(o, path, task, plan, partials).input
  }

  function OutputCharge(o: Oracle): Charge {
    (path: Path, task: Task, plan: LambdaPlan, partials: seq<Result>) => UsageAt(o, path, task, plan, partials).output
  }

  function TotalCharge(o: Oracle): Charge {
    (path: Path, task: Task, plan: LambdaPlan, partials: seq<Result>) => UsageAt(o, path, task, plan, partials).total
  }

  lemma RunnerAddsCounts(o: Oracle)
    ensures Adds(BehaviourOf(o), IterationsOf, NO_CHARGE)
    ensures Adds(BehaviourOf(o), SubcallsOf, NO_CHARGE)
  {
    forall partials: seq<Result>
      ensures SumResults(IterationsOf, partials) == Gather(partials).iterations
      ensures SumResults(SubcallsOf, partials) == Gather(partials).subcalls
    {
      GatherIsSum(partials);
    }
  }

  lemma RunnerAddsTokens(o: Oracle)
    ensures Adds(BehaviourOf(o), InputOf, InputCharge(o))
    ensures Adds(BehaviourOf(o), OutputOf, OutputCharge(o))
    ensures Adds(BehaviourOf(o), TotalOf, TotalCharge(o))
  {
    forall partials: seq<Result>
      ensures SumResults(InputOf, partials) == Gather(partials).tokens.input
      ensures SumResults(OutputOf, partials) == Gather(partials).tokens.output
      ensures SumResults(TotalOf, partials) == Gather(partials).tokens.total
    {
      GatherTokens(partials);
    }
  }

  lemma LeafDeduplicates(o: Oracle, path: Path, task: Task, plan: LambdaPlan)
    ensures RefsOf(LeafRun(o, path, task, plan).outcome) == Unique(RefsOf(LeafRun(o, path, task, plan).outcome))
  {
    var out := LeafRun(o, path, task, plan).outcome;
    if out.Ok? {
      var hit := o.search(path, task.prompt).value;
      assert out.result.evidenceRefs == LeafEvidence(o, hit);
      UniqueOfUniques(hit.surfaceRefs + CandidateRefs(o, hit), []);
    }
  }

  lemma RunnerDeduplicates(o: Oracle)
    ensures Deduplicates(BehaviourOf(o))
  {
    forall path: Path, task: Task, plan: LambdaPlan
      ensures RefsOf(BehaviourOf(o).leaf(path, task, plan).outcome) == Unique(RefsOf(BehaviourOf(o).leaf(path, task, plan).outcome))
    {
      LeafDeduplicates(o, path, task, plan);
    }
    forall path: Path, task: Task, plan: LambdaPlan, partials: seq<Result>, errors: nat
      ensures RefsOf(BehaviourOf(o).reduce(path, task, plan, partials, errors).outcome) == Unique(PartialRefs(partials))
    {
      GatherIsSum(partials);
    }
  }

  lemma RunnerAsksModel(o: Oracle)
    ensures AsksModel(BehaviourOf(o))
  {}

  lemma LeafIsUnstamped(o: Oracle, path: Path, task: Task, plan: LambdaPlan)
    ensures IsUnstamped(LeafRun(o, path, task, plan).outcome)
  {
    match o.search(path, task.prompt)
    case None =>
    case Some(hit) => HitIsUnstamped(o, path, task, plan, hit);
  }

  predicate IsUnstamped(out: Outcome) { out.Ok? ==> out.result.metadata.timestamp == "" }

  lemma HitIsUnstamped(o: Oracle, path: Path, task: Task, plan: LambdaPlan, hit: SearchHit)
    ensures IsUnstamped(HitRun(o, path, task, plan, hit).outcome)
  {
    JudgedIsUnstamped(o, path, task, plan, hit);
  }

  lemma JudgedIsUnstamped(o: Oracle, path: Path, task: Task, plan: LambdaPlan, hit: SearchHit)
    ensures IsUnstamped(Judged(o, path, task, plan, hit))
  {}

  lemma RunnerIsUnstamped(o: Oracle)
    ensures Unstamped(BehaviourOf(o))
  {
    forall path: Path, task: Task, plan: LambdaPlan
      ensures var out := BehaviourOf(o).leaf(path, task, plan).outcome; out.Ok? ==> out.result.metadata.timestamp == ""
    {
      LeafIsUnstamped(o, path, task, plan);
    }
  }

  // ----- the guarantees

  /** Leaves of the tree whose search did not fail. */
  function Succeeded(leaves: seq<Run>): nat {
    if leaves == [] then 0 else Succeeded(leaves[..|leaves| - 1]) + if leaves[|leaves| - 1].outcome.Ok? then 1 else 0
  }

  lemma {:induction false} IterationsCountLeaves(leaves: seq<Run>)
    requires forall j | 0 <= j < |leaves| :: OneIteration(leaves[j])
    ensures SumRuns(IterationsOf, leaves) == Succeeded(leaves)
  {
    if leaves != [] { IterationsCountLeaves(leaves[..|leaves| - 1]); }
  }

  predicate OneIteration(run: Run) { run.outcome.Ok? ==> run.outcome.result.iterations == 1 }

  /** A leaf fails exactly when its search does. */
  lemma LeafFailsIffSearchFails(o: Oracle, path: Path, task: Task, plan: LambdaPlan)
    ensures LeafRun(o, path, task, plan).outcome.Err? <==> o.search(path, task.prompt).None?
    ensures OneIteration(LeafRun(o, path, task, plan))
  {}

  /** A real tree never fails; its iterations count the leaves whose search succeeded, its
      subcalls and tokens are the sums over its leaves, answered reduce calls added to the tokens. */
  lemma TreeTotals(o: Oracle, path: Path, task: Task, plan: LambdaPlan)
    requires plan.depth >= 1 && plan.kStar >= 2
    ensures var b := BehaviourOf(o);
            var outcome, leaves := Phi(b, path, task, plan).outcome, Leaves(b, path, task, plan);
            && outcome.Ok?
            && outcome.result.iterations == Succeeded(leaves)
            && outcome.result.subcalls == SumRuns(SubcallsOf, leaves)
            && outcome.result.metadata.tokens.input == SumRuns(InputOf, leaves) + Charges(b, InputCharge(o), path, task, plan)
            && outcome.result.metadata.tokens.output == SumRuns(OutputOf, leaves) + Charges(b, OutputCharge(o), path, task, plan)
            && outcome.result.metadata.tokens.total == SumRuns(TotalOf, leaves) + Charges(b, TotalCharge(o), path, task, plan)
  {
    var b := BehaviourOf(o);
    RunnerAddsCounts(o);
    RunnerAddsTokens(o);
    MeasureIsSum(b, IterationsOf, NO_CHARGE, path, task, plan);
    MeasureIsSum(b, SubcallsOf, NO_CHARGE, path, task, plan);
    MeasureIsSum(b, InputOf, InputCharge(o), path, task, plan);
    MeasureIsSum(b, OutputOf, OutputCharge(o), path, task, plan);
    MeasureIsSum(b, TotalOf, TotalCharge(o), path, task, plan);
    NothingCharged(b, path, task, plan);
    CombineAddsCharge(b, IterationsOf, NO_CHARGE, path, task, plan, ChildRuns(b, path, task, plan));
    forall p: Path, t: Task, l: LambdaPlan ensures OneIteration(b.leaf(p, t, l)) {
      LeafFailsIffSearchFails(o, p, t, l);
    }
    LeavesKeep(b, OneIteration, path, task, plan);
    IterationsCountLeaves(Leaves(b, path, task, plan));
  }

  lemma {:induction false} SumOfZeros(values: seq<int>)
    requires forall i | 0 <= i < |values| :: values[i] == 0
    ensures Sum(values) == 0
  {
    if values != [] { SumOfZeros(values[..|values| - 1]); }
  }

  lemma {:induction false} NothingCharged(b: Behaviour, path: Path, task: Task, plan: LambdaPlan)
    requires plan.depth >= 0
    ensures Charges(b, NO_CHARGE, path, task, plan) == 0
    decreases plan.depth
  {
    if !IsLeaf(plan) {
      var charges := ChildCharges(b, NO_CHARGE, path, task, plan);
      forall i | 0 <= i < plan.kStar ensures charges[i] == 0 {
        NothingCharged(b, path + [i], b.childTask(task, plan, i), ChildPlan(plan));
      }
      SumOfZeros(charges);
    }
  }

  /** The root's evidence: the successful leaves' references, left to right, first occurrences only. */
  lemma TreeEvidence(o: Oracle, path: Path, task: Task, plan: LambdaPlan)
    requires plan.depth >= 0 && Phi(BehaviourOf(o), path, task, plan).outcome.Ok?
    ensures Phi(BehaviourOf(o), path, task, plan).outcome.result.evidenceRefs
            == Unique(LeafRefs(Leaves(BehaviourOf(o), path, task, plan)))
  {
    RunnerDeduplicates(o);
    EvidenceIsUniqueOfLeaves(BehaviourOf(o), path, task, plan);
  }

  /** Reduce calls of a tree that reranks or synthesizes: every level above the lowest reduce
      level asks the model at every node, and no node asks twice. */
  lemma TreeReduceCalls(o: Oracle, path: Path, task: Task, plan: LambdaPlan)
    requires plan.depth >= 1 && plan.kStar >= 2 && (plan.composeOp.Rerank? || plan.composeOp.Synthesize?)
    ensures Geometric(plan.kStar, plan.depth - 1)
            <= Phi(BehaviourOf(o), path, task, plan).calls.reduces
            <= Geometric(plan.kStar, plan.depth)
  {
    RunnerIsMetered(o);
    RunnerAsksModel(o);
    CallBounds(BehaviourOf(o), path, task, plan);
    UpperLevelsAskModel(BehaviourOf(o), path, task, plan);
  }

  predicate Succeeds(run: Run) { run.outcome.Ok? }

  function ResultOf(run: Run): Result {
    if run.outcome.Ok? then run.outcome.result else NoPartials(0)
  }

  lemma {:induction false} SuccessesPicked(runs: seq<Run>) returns (at: seq<nat>)
    ensures PicksAt(runs, Successes(runs), Succeeds, ResultOf, at)
  {
    at := [];
    if runs != [] {
      var init, last := runs[..|runs| - 1], runs[|runs| - 1];
      at := SuccessesPicked(init);
      assert runs == init + [last];
      if Succeeds(last) {
        PickLast(init, Successes(init), Succeeds, ResultOf, at, last);
        at := at + [|init|];
      } else {
        SkipLast(init, Successes(init), Succeeds, ResultOf, at, last);
      }
    }
  }

  lemma {:induction false} SuccessesAndErrors(runs: seq<Run>)
    ensures |Successes(runs)| + Errors(runs) == |runs|
  {
    if runs != [] { SuccessesAndErrors(runs[..|runs| - 1]); }
  }

  /** The runs of a node's children: one per formulation of its query, one level down. */
  ghost predicate AreChildren(o: Oracle, path: Path, task: Task, plan: LambdaPlan, runs: seq<Run>)
    requires plan.depth >= 1 && plan.kStar >= 2
  {
    var below := LambdaPlan(plan.taskType, plan.composeOp, plan.kStar, plan.tauStar, plan.depth - 1, 0);
    |runs| == plan.kStar == |Variants(o.formulator, task.prompt, plan.kStar)|
    && forall i | 0 <= i < plan.kStar ::
         runs[i] == Phi(BehaviourOf(o), path + [i], Task(Variants(o.formulator, task.prompt, plan.kStar)[i], task.wantsGraph), below)
  }

  /** What a node of a real tree answers: partials are the results of exactly the children that
      succeeded, in order; it reduces them, or says that there are none. */
  ghost predicate AnswersWith(o: Oracle, path: Path, task: Task, plan: LambdaPlan, runs: seq<Run>, partials: seq<Result>, r: Result, asked: int) {
    && Picks(runs, partials, Succeeds, ResultOf)
    && r.metadata.childErrors == |runs| - |partials| && r.metadata.noPartials == (partials == [])
    && asked >= 0
    && if partials == [] then asked == 0 && r.answer == "No evidence found after recursive decomposition." && r.evidenceRefs == []
       else ReducesTo(o, path, task, plan, partials, TrustedMerge(o, partials), r.answer, r.metadata.tokens, asked)
  }

  lemma ChildrenSpec(o: Oracle, path: Path, task: Task, plan: LambdaPlan, runs: seq<Run>)
    requires plan.depth >= 1 && plan.kStar >= 2 && runs == ChildRuns(BehaviourOf(o), path, task, plan)
    ensures AreChildren(o, path, task, plan, runs)
  {
    VariantsSpec(o.formulator, task.prompt, plan.kStar);
    var b := BehaviourOf(o);
    forall i | 0 <= i < plan.kStar
      ensures runs[i] == Phi(b, path + [i], Task(Variants(o.formulator, task.prompt, plan.kStar)[i], task.wantsGraph), ChildPlan(plan))
    {
      assert b.childTask(task, plan, i) == Task(Variants(o.formulator, task.prompt, plan.kStar)[i], task.wantsGraph);
    }
  }

  /** The answer of every node above the leaves. */
  lemma TreeAnswers(o: Oracle, path: Path, task: Task, plan: LambdaPlan, runs: seq<Run>, run: Run)
    requires plan.depth >= 1 && plan.kStar >= 2 && runs == ChildRuns(BehaviourOf(o), path, task, plan)
    requires run == Phi(BehaviourOf(o), path, task, plan)
    ensures AreChildren(o, path, task, plan, runs) && run.outcome.Ok?
    ensures AnswersWith(o, path, task, plan, runs, Successes(runs), run.outcome.result, run.calls.reduces - TotalCalls(runs).reduces)
  {
    ChildrenSpec(o, path, task, plan, runs);
    var at := SuccessesPicked(runs);
    SuccessesAndErrors(runs);
    PhiOfNode(o, path, task, plan, runs);
    NodeResult(o, path, task, plan, runs, run);
  }

  /** Only a node right above the leaves can miss a child. */
  lemma InnerChildrenSucceed(o: Oracle, path: Path, task: Task, plan: LambdaPlan, runs: seq<Run>)
    requires plan.depth >= 2 && plan.kStar >= 2 && runs == ChildRuns(BehaviourOf(o), path, task, plan)
    ensures |Successes(runs)| == plan.kStar
  {
    forall i | 0 <= i < |runs| ensures Succeeds(runs[i]) {
      InnerChildSucceeds(o, path + [i], ChildTask(o, task, plan, i), ChildPlan(plan), runs[i]);
    }
    NoErrors(runs);
  }

  lemma InnerChildSucceeds(o: Oracle, path: Path, task: Task, plan: LambdaPlan, run: Run)
    requires plan.depth >= 1 && plan.kStar >= 2 && run == Phi(BehaviourOf(o), path, task, plan)
    ensures Succeeds(run)
  {
    PhiOfNode(o, path, task, plan, ChildRuns(BehaviourOf(o), path, task, plan));
  }

  lemma NodeResult(o: Oracle, path: Path, task: Task, plan: LambdaPlan, runs: seq<Run>, run: Run)
    requires Picks(runs, Successes(runs), Succeeds, ResultOf) && |Successes(runs)| + Errors(runs) == |runs|
    requires Successes(runs) == [] ==> run == Run(Ok(NoPartials(Errors(runs))), TotalCalls(runs))
    requires Successes(runs) != [] ==>
               run == Run(Ok(Reduced(o, path, task, plan, Successes(runs), Errors(runs))),
                          TotalCalls(runs).Plus(ReduceCalls(o, path, task, plan, Successes(runs))))
    ensures run.outcome.Ok?
    ensures AnswersWith(o, path, task, plan, runs, Successes(runs), run.outcome.result, run.calls.reduces - TotalCalls(runs).reduces)
  {
    if Successes(runs) != [] {
      ReduceAnswers(o, path, task, plan, Successes(runs), Errors(runs));
      ReduceReports(o, path, task, plan, Successes(runs), Errors(runs));
    }
  }

  lemma {:induction false} NoErrors(runs: seq<Run>)
    requires forall i | 0 <= i < |runs| :: Succeeds(runs[i])
    ensures |Successes(runs)| == |runs|
  {
    if runs != [] { NoErrors(runs[..|runs| - 1]); }
  }

  /** The chronological merge of a run never reorders anything. */
  lemma TreeChronology(o: Oracle, path: Path, task: Task, plan: LambdaPlan)
    requires plan.depth >= 1 && plan.kStar >= 2
    ensures var partials := Successes(ChildRuns(BehaviourOf(o), path, task, plan));
            ChronologicalText(partials, o.parseTime) == UnionText(partials)
  {
    RunnerIsUnstamped(o);
    ChronologicalIsUnion(BehaviourOf(o), path, task, plan, o.parseTime);
  }

  /** For every interleaving of the goroutines of a real tree, whatever tools and model do: the
      tree returns after exactly Work(plan) steps, without error, with one search per leaf, within
      the estimate, and with the leaves' evidence deduplicated in left-to-right order. */
  lemma EverySchedule(o: Oracle, path: Path, task: Task, plan: LambdaPlan, config: LambdaConfig, trace: seq<Proc>)
    requires plan.depth >= 1 && plan.kStar >= 2
    requires IsSchedule(BehaviourOf(o), path, task, plan, trace) && |trace| - 1 >= Work(plan)
    ensures |trace| - 1 == Work(plan) && trace[|trace| - 1].Returned?
    ensures var run := trace[|trace| - 1].run;
            && run.outcome.Ok?
            && run.calls.searches == Pow(plan.kStar, plan.depth)
            && run.calls.Estimated() <= TrueTotalCalls(plan, config)
            && run.outcome.result.evidenceRefs == Unique(LeafRefs(Leaves(BehaviourOf(o), path, task, plan)))
  {
    var b := BehaviourOf(o);
    ScheduleIndependence(b, path, task, plan, trace);
    TreeTotals(o, path, task, plan);
    TreeEvidence(o, path, task, plan);
    RunnerIsMetered(o);
    CallBounds(b, path, task, plan);
    EstimateBoundsCalls(b, path, task, plan, config);
  }

  /** The plan that Run executes: the capped one, or a single leaf for a task that one gathered
      surface answers. */
  ghost predicate IsExecuted(capped: LambdaPlan, singleGatherSurface: bool, config: LambdaConfig, n: Int64, plan: LambdaPlan) {
    if singleGatherSurface then
      && plan.kStar == 1 && plan.depth == 0 && plan.tauStar == Max(1, Min(config.Defaults().contextBudget, n))
      && plan.composeOp == ComposeOp.Union && plan.taskType == capped.taskType && plan.n == capped.n
    else plan == capped
  }

  /** Phases 2 and 3 of Run: plan, cap, build the program, execute.  The calls made stay within
      the program's estimate; graph expansions, which it leaves out, are at most one per leaf. */
  method RunLambda(
    o: Oracle, task: Task, taskType: TaskType, n: Int64, config: LambdaConfig, maxSubcalls: Int64, maxDepth: Int64,
    singleGatherSurface: bool, infinityAsInt: Int64, meter: Meter)
    returns (plan: LambdaPlan, program: LambdaProgram, outcome: Outcome)
    modifies meter
    ensures exists first, capped ::
              && IsPlan(taskType, n, config, infinityAsInt, first) && IsCapped(first, maxSubcalls, maxDepth, config, capped)
              && IsExecuted(capped, singleGatherSurface, config, n, plan)
    ensures program.estimatedTotalCalls == Saturate(TrueTotalCalls(plan, config))
    ensures plan.depth >= 0 && outcome == Phi(BehaviourOf(o), [], task, plan).outcome
    ensures meter.calls.searches == old(meter.calls.searches) + TrueLeaves(plan)
    ensures meter.calls.expansions <= old(meter.calls.expansions) + TrueLeaves(plan)
    ensures program.estimatedTotalCalls < MAX_INT ==>
              meter.calls.Estimated() <= old(meter.calls.Estimated()) + program.estimatedTotalCalls
  {
    plan := PlanLambda(taskType, n, config, infinityAsInt);
    ghost var first := plan;
    var caps;
    plan, caps := CapLambdaPlanForTask(plan, maxSubcalls, maxDepth, config);
    ghost var capped := plan;
    if singleGatherSurface {
      plan := plan.(kStar := 1, depth := 0, tauStar := Max(1, Min(config.Defaults().contextBudget, Max(1, n))), composeOp := ComposeOp.Union);
    }
    assert IsExecuted(capped, singleGatherSurface, config, n, plan);
    program := BuildLambdaProgram(plan, config);
    ghost var b := BehaviourOf(o);
    outcome := ExecutePhi(o, b, [], task, plan, meter);
    RunnerIsMetered(o);
    CallBounds(b, [], task, plan);
    EstimateBoundsCalls(b, [], task, plan, config);
  }
}
