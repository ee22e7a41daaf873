/**
 The shape of the recursion Phi = Split -> Map -> Reduce (internal/rlm/lambda_runner.go),
 whatever its leaves, its split and its reduce step do.
 */
module PhiTree {
  import opened Saturating
  import opened Planner
  import opened Compose

  /** The child indices on the way from the root to a node. */
  type Path = seq<nat>

  /** wantsGraph: the payload of this Task names a type of work that needs the context graph. */
  datatype Task = Task(prompt: string, wantsGraph: bool)

  datatype Outcome = Ok(result: Result) | Err

  /** Calls made: searches, evidence loads, leaf judgements, reduce calls, graph expansions. */
  datatype Calls = Calls(searches: nat, loads: nat, judgements: nat, reduces: nat, expansions: nat) {
    function Plus(c: Calls): Calls {
      Calls(searches + c.searches, loads + c.loads, judgements + c.judgements, reduces + c.reduces, expansions + c.expansions)
    }
    /** The calls that the estimate covers. */
    function Estimated(): nat { searches + loads + judgements + reduces }
  }

  lemma PlusAssociative(a: Calls, b: Calls, c: Calls)
    ensures a.Plus(b).Plus(c) == a.Plus(b.Plus(c))
  {}

  const NO_CALLS := Calls(0, 0, 0, 0, 0)

  datatype Run = Run(outcome: Outcome, calls: Calls)

  /** What the nodes do: a leaf, the i-th task of a split, a reduce step with the number of
      failed children. */
  datatype Behaviour = Behaviour(
    leaf: (Path, Task, LambdaPlan) -> Run,
    childTask: (Task, LambdaPlan, nat) -> Task,
    reduce: (Path, Task, LambdaPlan, seq<Result>, nat) -> Run)

  function NoPartials(childErrors: nat): Result {
    Result("No evidence found after recursive decomposition.", [], [], 0, 0,
           Metadata(false, [], [], [], NO_TOKENS, childErrors, true, ""))
  }

  // ----- the tree, children left to right

  predicate IsLeaf(plan: LambdaPlan) {
    plan.depth == 0 || plan.kStar <= 1
  }

  /** The total number n of items is not passed on. */
  function ChildPlan(plan: LambdaPlan): LambdaPlan
    requires plan.depth >= 1
  {
    plan.(depth := plan.depth - 1, n := 0)
  }

  function Phi(b: Behaviour, path: Path, task: Task, plan: LambdaPlan): Run
    requires plan.depth >= 0
    decreases plan.depth, 1
  {
    if IsLeaf(plan) then b.leaf(path, task, plan)
    else Combine(b, path, task, plan, ChildRuns(b, path, task, plan))
  }

  function ChildRuns(b: Behaviour, path: Path, task: Task, plan: LambdaPlan): (runs: seq<Run>)
    requires plan.depth >= 1 && plan.kStar >= 2
    ensures |runs| == plan.kStar
    decreases plan.depth, 0
  {
    seq(plan.kStar, i requires 0 <= i < plan.kStar => Phi(b, path + [i], b.childTask(task, plan, i), ChildPlan(plan)))
  }

  /** The successful results, in child order. */
  function Successes(runs: seq<Run>): seq<Result> {
    if runs == [] then []
    else
      var last := runs[|runs| - 1].outcome;
      Successes(runs[..|runs| - 1]) + if last.Ok? then [last.result] else []
  }

  function Errors(runs: seq<Run>): nat {
    if runs == [] then 0
    else Errors(runs[..|runs| - 1]) + if runs[|runs| - 1].outcome.Err? then 1 else 0
  }

  function TotalCalls(runs: seq<Run>): Calls {
    if runs == [] then NO_CALLS else TotalCalls(runs[..|runs| - 1]).Plus(runs[|runs| - 1].calls)
  }

  /** What a node does once all its children have returned. */
  function Combine(b: Behaviour, path: Path, task: Task, plan: LambdaPlan, runs: seq<Run>): Run {
    var partials := Successes(runs);
    if partials == [] then Run(Ok(NoPartials(Errors(runs))), TotalCalls(runs))
    else
      var reduced := b.reduce(path, task, plan, partials, Errors(runs));
      Run(reduced.outcome, TotalCalls(runs).Plus(reduced.calls))
  }

  // ----- completion in any order

  /** The part of the tallies over the first n runs that is due to the children already done. */
  function DoneErrors(runs: seq<Run>, done: seq<bool>, n: nat): nat
    requires n <= |runs| == |done|
  {
    if n == 0 then 0
    else DoneErrors(runs, done, n - 1) + if done[n - 1] && runs[n - 1].outcome.Err? then 1 else 0
  }

  function DoneCalls(runs: seq<Run>, done: seq<bool>, n: nat): Calls
    requires n <= |runs| == |done|
  {
    if n == 0 then NO_CALLS
    else DoneCalls(runs, done, n - 1).Plus(if done[n - 1] then runs[n - 1].calls else NO_CALLS)
  }

  function Undone(done: seq<bool>, n: nat): nat
    requires n <= |done|
  {
    if n == 0 then 0 else Undone(done, n - 1) + if done[n - 1] then 0 else 1
  }

  lemma {:induction false} TallyStep(runs: seq<Run>, done: seq<bool>, i: nat, n: nat)
    requires i < |runs| == |done| && n <= |runs| && !done[i]
    ensures i >= n ==>
              && DoneCalls(runs, done[i := true], n) == DoneCalls(runs, done, n)
              && DoneErrors(runs, done[i := true], n) == DoneErrors(runs, done, n)
              && Undone(done[i := true], n) == Undone(done, n)
    ensures i < n ==>
              && DoneCalls(runs, done[i := true], n) == DoneCalls(runs, done, n).Plus(runs[i].calls)
              && DoneErrors(runs, done[i := true], n) == DoneErrors(runs, done, n) + (if runs[i].outcome.Err? then 1 else 0)
              && Undone(done[i := true], n) == Undone(done, n) - 1
  {
    if n > 0 { TallyStep(runs, done, i, n - 1); }
  }

  /** What a loop over the children may conclude when child i reports. */
  lemma ReportOne(base: Calls, runs: seq<Run>, done: seq<bool>, i: nat)
    requires i < |runs| == |done| && !done[i]
    ensures base.Plus(DoneCalls(runs, done[i := true], |runs|)) == base.Plus(DoneCalls(runs, done, |runs|)).Plus(runs[i].calls)
    ensures DoneErrors(runs, done[i := true], |runs|) == DoneErrors(runs, done, |runs|) + (if runs[i].outcome.Err? then 1 else 0)
    ensures Undone(done[i := true], |runs|) < Undone(done, |runs|)
  {
    TallyStep(runs, done, i, |runs|);
  }

  lemma {:induction false} NoneDone(runs: seq<Run>, done: seq<bool>, n: nat)
    requires n <= |runs| == |done| && forall i | 0 <= i < n :: !done[i]
    ensures DoneCalls(runs, done, n) == NO_CALLS
    ensures DoneErrors(runs, done, n) == 0
  {
    if n > 0 { NoneDone(runs, done, n - 1); }
  }

  lemma {:induction false} AllDone(runs: seq<Run>, done: seq<bool>, n: nat)
    requires n <= |runs| == |done| && forall i | 0 <= i < n :: done[i]
    ensures DoneCalls(runs, done, n) == TotalCalls(runs[..n])
    ensures DoneErrors(runs, done, n) == Errors(runs[..n])
  {
    if n > 0 {
      AllDone(runs, done, n - 1);
      assert runs[..n][..n - 1] == runs[..n - 1];
    }
  }
}
