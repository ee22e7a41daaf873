/**
 What every run of Phi costs and adds up to, derived from what its leaves and its reduce
 step promise about single nodes.
 */
module PhiTheorems {
  import opened Saturating
  import opened Text
  import opened Planner
  import opened Compose
  import opened PhiTree

  // ----- the leaves of a tree, left to right

  function Leaves(b: Behaviour, path: Path, task: Task, plan: LambdaPlan): seq<Run>
    requires plan.depth >= 0
    decreases plan.depth, 1
  {
    if IsLeaf(plan) then [b.leaf(path, task, plan)] else Concat(ChildLeaves(b, path, task, plan))
  }

  function ChildLeaves(b: Behaviour, path: Path, task: Task, plan: LambdaPlan): (lists: seq<seq<Run>>)
    requires plan.depth >= 1 && plan.kStar >= 2
    ensures |lists| == plan.kStar
    decreases plan.depth, 0
  {
    seq(plan.kStar, i requires 0 <= i < plan.kStar => Leaves(b, path + [i], b.childTask(task, plan, i), ChildPlan(plan)))
  }

  lemma {:induction false} ConcatLength<T>(lists: seq<seq<T>>, m: nat)
    requires forall i | 0 <= i < |lists| :: |lists[i]| == m
    ensures |Concat(lists)| == |lists| * m
  {
    if lists != [] {
      ConcatLength(lists[..|lists| - 1], m);
      OneMore(|lists| - 1, m);
    }
  }

  /** Exactly kStar^depth leaves; one when the plan does not split. */
  lemma {:induction false} LeafCount(b: Behaviour, path: Path, task: Task, plan: LambdaPlan)
    requires plan.depth >= 0
    ensures |Leaves(b, path, task, plan)| == TrueLeaves(plan)
    decreases plan.depth
  {
    if !IsLeaf(plan) {
      var lists, child := ChildLeaves(b, path, task, plan), ChildPlan(plan);
      forall i | 0 <= i < plan.kStar ensures |lists[i]| == TrueLeaves(child) {
        LeafCount(b, path + [i], b.childTask(task, plan, i), child);
      }
      ConcatLength(lists, TrueLeaves(child));
      LeavesOfChildren(plan);
    }
  }

  lemma LeavesOfChildren(plan: LambdaPlan)
    requires plan.depth >= 1 && plan.kStar >= 2
    ensures TrueLeaves(plan) == plan.kStar * TrueLeaves(ChildPlan(plan))
    ensures TrueReduceCalls(plan) == plan.kStar * TrueReduceCalls(ChildPlan(plan)) + if ReducesWithOracle(plan.composeOp) then 1 else 0
  {
    GeometricUnfold(plan.kStar, plan.depth);
    if plan.depth == 1 {
      assert Pow(plan.kStar, 1) == plan.kStar * Pow(plan.kStar, 0);
      assert Geometric(plan.kStar, 0) == 0;
    }
  }

  ghost predicate AllGood<T>(list: seq<T>, good: T -> bool) {
    forall j | 0 <= j < |list| :: good(list[j])
  }

  lemma {:induction false} ConcatKeeps<T>(lists: seq<seq<T>>, good: T -> bool)
    requires forall i | 0 <= i < |lists| :: AllGood(lists[i], good)
    ensures AllGood(Concat(lists), good)
  {
    if lists != [] { ConcatKeeps(lists[..|lists| - 1], good); }
  }

  /** What holds of every leaf run holds of every listed leaf. */
  lemma {:induction false} LeavesKeep(b: Behaviour, good: Run -> bool, path: Path, task: Task, plan: LambdaPlan)
    requires plan.depth >= 0
    requires forall path: Path, task: Task, plan: LambdaPlan :: good(b.leaf(path, task, plan))
    ensures AllGood(Leaves(b, path, task, plan), good)
    decreases plan.depth
  {
    if !IsLeaf(plan) {
      var lists := ChildLeaves(b, path, task, plan);
      forall i | 0 <= i < plan.kStar ensures AllGood(lists[i], good) {
        LeavesKeep(b, good, path + [i], b.childTask(task, plan, i), ChildPlan(plan));
      }
      ConcatKeeps(lists, good);
    }
  }

  // ----- calls

  /** One search per leaf, at most one judgement and tauStar loads; at most one model call per
      reduce step, and none for the deterministic operators. */
  ghost predicate Metered(b: Behaviour) {
    && (forall path: Path, task: Task, plan: LambdaPlan ::
          var c := b.leaf(path, task, plan).calls;
          c.searches == 1 && c.judgements <= 1 && c.expansions <= 1 && c.reduces == 0 && c.loads <= Max(0, plan.tauStar))
    && (forall path: Path, task: Task, plan: LambdaPlan, partials: seq<Result>, errors: nat ::
          var c := b.reduce(path, task, plan, partials, errors).calls;
          c.searches == c.judgements == c.loads == c.expansions == 0 && c.reduces <= if ReducesWithOracle(plan.composeOp) then 1 else 0)
  }

  ghost predicate WithinBudget(c: Calls, leaves: nat, loads: nat, reduces: nat) {
    c.searches == leaves && c.judgements <= leaves && c.expansions <= leaves && c.loads <= loads && c.reduces <= reduces
  }

  lemma OneMore(n: nat, x: nat)
    ensures (n + 1) * x == n * x + x
  {}

  lemma {:induction false} SumWithinBudget(runs: seq<Run>, leaves: nat, loads: nat, reduces: nat)
    requires forall i | 0 <= i < |runs| :: WithinBudget(runs[i].calls, leaves, loads, reduces)
    ensures WithinBudget(TotalCalls(runs), |runs| * leaves, |runs| * loads, |runs| * reduces)
  {
    if runs != [] {
      var n := |runs| - 1;
      SumWithinBudget(runs[..n], leaves, loads, reduces);
      OneMore(n, leaves);
      OneMore(n, loads);
      OneMore(n, reduces);
    }
  }

  lemma MulAssociative(a: int, b: int, c: int)
    ensures a * (b * c) == (a * b) * c
  {}

  /** Searches are the leaves; everything else stays within what the estimate counts. */
  lemma {:induction false} CallBounds(b: Behaviour, path: Path, task: Task, plan: LambdaPlan)
    requires plan.depth >= 0 && Metered(b)
    ensures WithinBudget(Phi(b, path, task, plan).calls, TrueLeaves(plan), TrueLeaves(plan) * Max(0, plan.tauStar), TrueReduceCalls(plan))
    decreases plan.depth
  {
    if !IsLeaf(plan) {
      var runs, k, child, tau := ChildRuns(b, path, task, plan), plan.kStar, ChildPlan(plan), Max(0, plan.tauStar);
      var leaves, reduces := TrueLeaves(child), TrueReduceCalls(child);
      forall i | 0 <= i < k ensures WithinBudget(runs[i].calls, leaves, leaves * tau, reduces) {
        CallBounds(b, path + [i], b.childTask(task, plan, i), child);
      }
      SumWithinBudget(runs, leaves, leaves * tau, reduces);
      LeavesOfChildren(plan);
      MulAssociative(k, leaves, tau);
    }
  }

  /** The estimate bounds the calls of every run. */
  lemma EstimateBoundsCalls(b: Behaviour, path: Path, task: Task, plan: LambdaPlan, config: LambdaConfig)
    requires plan.depth >= 0 && Metered(b)
    ensures Phi(b, path, task, plan).calls.Estimated() <= TrueTotalCalls(plan, config)
  {
    CallBounds(b, path, task, plan);
    LoadsWithinLimit(TrueLeaves(plan), plan.tauStar, LeafLimit(plan, config));
  }

  lemma LoadsWithinLimit(leaves: nat, tau: int, limit: nat)
    requires Max(0, tau) <= limit
    ensures leaves * Max(0, tau) <= LoadsOf(leaves, limit)
  {}

  // ----- counters

  /** A number read off an outcome, such as its iterations or its input tokens. */
  type Measure = Outcome -> int

  /** The sum of a measure over all leaves. */
  function SumRuns(measure: Measure, leaves: seq<Run>): int {
    if leaves == [] then 0 else SumRuns(measure, leaves[..|leaves| - 1]) + measure(leaves[|leaves| - 1].outcome)
  }

  function SumResults(measure: Measure, partials: seq<Result>): int {
    if partials == [] then 0 else SumResults(measure, partials[..|partials| - 1]) + measure(Ok(partials[|partials| - 1]))
  }

  function Sum(values: seq<int>): int {
    if values == [] then 0 else Sum(values[..|values| - 1]) + values[|values| - 1]
  }

  lemma {:induction false} SumRunsAppend(measure: Measure, x: seq<Run>, y: seq<Run>)
    ensures SumRuns(measure, x + y) == SumRuns(measure, x) + SumRuns(measure, y)
  {
    if y == [] {
      assert x + y == x;
    } else {
      assert (x + y)[..|x + y| - 1] == x + y[..|y| - 1];
      SumRunsAppend(measure, x, y[..|y| - 1]);
    }
  }

  /** What a reduce step adds of its own to the measure. */
  type Charge = (Path, Task, LambdaPlan, seq<Result>) -> int

  /** All that the reduce steps below a node add, its own included. */
  function Charges(b: Behaviour, charge: Charge, path: Path, task: Task, plan: LambdaPlan): int
    requires plan.depth >= 0
    decreases plan.depth, 1
  {
    if IsLeaf(plan) then 0
    else
      Sum(ChildCharges(b, charge, path, task, plan))
      + OwnCharge(charge, path, task, plan, Successes(ChildRuns(b, path, task, plan)))
  }

  function OwnCharge(charge: Charge, path: Path, task: Task, plan: LambdaPlan, partials: seq<Result>): int {
    if partials == [] then 0 else charge(path, task, plan, partials)
  }

  function ChildCharges(b: Behaviour, charge: Charge, path: Path, task: Task, plan: LambdaPlan): (r: seq<int>)
    requires plan.depth >= 1 && plan.kStar >= 2
    ensures |r| == plan.kStar
    decreases plan.depth, 0
  {
    seq(plan.kStar, i requires 0 <= i < plan.kStar => Charges(b, charge, path + [i], b.childTask(task, plan, i), ChildPlan(plan)))
  }

  /** Failures and empty merges measure zero; reduce steps never fail and measure the sum of
      their partials, the charge added. */
  ghost predicate Adds(b: Behaviour, measure: Measure, charge: Charge) {
    && measure(Err) == 0
    && (forall errors: nat :: measure(Ok(NoPartials(errors))) == 0)
    && (forall path: Path, task: Task, plan: LambdaPlan, partials: seq<Result>, errors: nat ::
          var out := b.reduce(path, task, plan, partials, errors).outcome;
          out.Ok? && measure(out) == SumResults(measure, partials) + charge(path, task, plan, partials))
  }

  lemma SumResultsAppend(measure: Measure, partials: seq<Result>, last: Result)
    ensures SumResults(measure, partials + [last]) == SumResults(measure, partials) + measure(Ok(last))
  {
    assert (partials + [last])[..|partials|] == partials;
  }

  /** A failed child contributes nothing. */
  lemma SumOneMore(measure: Measure, runs: seq<Run>)
    requires runs != [] && measure(Err) == 0
    ensures SumResults(measure, Successes(runs))
            == SumResults(measure, Successes(runs[..|runs| - 1])) + measure(runs[|runs| - 1].outcome)
  {
    var before := Successes(runs[..|runs| - 1]);
    match runs[|runs| - 1].outcome {
      case Ok(last) =>
        SumResultsAppend(measure, before, last);
      case Err =>
        assert before + [] == before;
    }
  }

  lemma {:induction false} SumsAgree(measure: Measure, runs: seq<Run>, lists: seq<seq<Run>>, charges: seq<int>)
    requires |runs| == |lists| == |charges| && measure(Err) == 0
    requires forall i | 0 <= i < |runs| :: measure(runs[i].outcome) == SumRuns(measure, lists[i]) + charges[i]
    ensures SumResults(measure, Successes(runs)) == SumRuns(measure, Concat(lists)) + Sum(charges)
  {
    if runs != [] {
      var last := |runs| - 1;
      SumsAgree(measure, runs[..last], lists[..last], charges[..last]);
      SumOneMore(measure, runs);
      SumRunsAppend(measure, Concat(lists[..last]), lists[last]);
    }
  }

  /** Every node measures the sum over the leaves below it plus the reduce charges below it. */
  lemma {:induction false} MeasureIsSum(b: Behaviour, measure: Measure, charge: Charge, path: Path, task: Task, plan: LambdaPlan)
    requires plan.depth >= 0 && Adds(b, measure, charge)
    ensures measure(Phi(b, path, task, plan).outcome)
            == SumRuns(measure, Leaves(b, path, task, plan)) + Charges(b, charge, path, task, plan)
    decreases plan.depth
  {
    if IsLeaf(plan) {
      var leaf := b.leaf(path, task, plan);
      assert [leaf][..0] == [];
      assert SumRuns(measure, [leaf]) == SumRuns(measure, [leaf][..0]) + measure(leaf.outcome);
    } else {
      var runs, lists, charges := ChildRuns(b, path, task, plan), ChildLeaves(b, path, task, plan), ChildCharges(b, charge, path, task, plan);
      forall i | 0 <= i < plan.kStar ensures measure(runs[i].outcome) == SumRuns(measure, lists[i]) + charges[i] {
        MeasureIsSum(b, measure, charge, path + [i], b.childTask(task, plan, i), ChildPlan(plan));
      }
      SumsAgree(measure, runs, lists, charges);
      CombineAddsCharge(b, measure, charge, path, task, plan, runs);
    }
  }

  lemma CombineAddsCharge(b: Behaviour, measure: Measure, charge: Charge, path: Path, task: Task, plan: LambdaPlan, runs: seq<Run>)
    requires Adds(b, measure, charge)
    ensures Combine(b, path, task, plan, runs).outcome.Ok?
    ensures measure(Combine(b, path, task, plan, runs).outcome)
            == SumResults(measure, Successes(runs)) + OwnCharge(charge, path, task, plan, Successes(runs))
  {}

  // ----- evidence

  function RefsOf(outcome: Outcome): seq<string> {
    if outcome.Ok? then outcome.result.evidenceRefs else []
  }

  /** The references of the successful leaves, left to right. */
  function LeafRefs(leaves: seq<Run>): seq<string> {
    if leaves == [] then [] else LeafRefs(leaves[..|leaves| - 1]) + RefsOf(leaves[|leaves| - 1].outcome)
  }

  function PartialRefs(partials: seq<Result>): seq<string> {
    if partials == [] then [] else PartialRefs(partials[..|partials| - 1]) + partials[|partials| - 1].evidenceRefs
  }

  lemma {:induction false} LeafRefsAppend(x: seq<Run>, y: seq<Run>)
    ensures LeafRefs(x + y) == LeafRefs(x) + LeafRefs(y)
  {
    if y == [] {
      assert x + y == x;
    } else {
      assert (x + y)[..|x + y| - 1] == x + y[..|y| - 1];
      LeafRefsAppend(x, y[..|y| - 1]);
    }
  }

  lemma PartialRefsOneMore(runs: seq<Run>)
    requires runs != []
    ensures PartialRefs(Successes(runs)) == PartialRefs(Successes(runs[..|runs| - 1])) + RefsOf(runs[|runs| - 1].outcome)
  {
    var before, last := Successes(runs[..|runs| - 1]), runs[|runs| - 1].outcome;
    if last.Ok? {
      assert (before + [last.result])[..|before|] == before;
    } else {
      assert before + [] == before;
    }
  }

  /** Every node deduplicates what it reports: leaves their own references, reduce steps those
      of their partials. */
  ghost predicate Deduplicates(b: Behaviour) {
    && (forall path: Path, task: Task, plan: LambdaPlan ::
          RefsOf(b.leaf(path, task, plan).outcome) == Unique(RefsOf(b.leaf(path, task, plan).outcome)))
    && (forall path: Path, task: Task, plan: LambdaPlan, partials: seq<Result>, errors: nat ::
          RefsOf(b.reduce(path, task, plan, partials, errors).outcome) == Unique(PartialRefs(partials)))
  }

  lemma {:induction false} DeduplicateParts(runs: seq<Run>, lists: seq<seq<Run>>)
    requires |runs| == |lists|
    requires forall i | 0 <= i < |runs| :: RefsOf(runs[i].outcome) == Unique(LeafRefs(lists[i]))
    ensures Unique(PartialRefs(Successes(runs))) == Unique(LeafRefs(Concat(lists)))
  {
    if runs != [] {
      var last := |runs| - 1;
      DeduplicateParts(runs[..last], lists[..last]);
      PartialRefsOneMore(runs);
      LeafRefsAppend(Concat(lists[..last]), lists[last]);
      DeduplicateMore(PartialRefs(Successes(runs[..last])), LeafRefs(Concat(lists[..last])), LeafRefs(lists[last]));
    }
  }

  lemma DeduplicateMore(x: seq<string>, y: seq<string>, more: seq<string>)
    requires Unique(x) == Unique(y)
    ensures Unique(x + Unique(more)) == Unique(y + more)
  {
    UniqueOfUniques(x, Unique(more));
    UniqueOfUniques(y, more);
    UniqueOfUniques(more, []);
  }

  /** Deduplicating at every level is deduplicating once: a node's evidence is the
      first-occurrence list of the references of the successful leaves below it. */
  lemma {:induction false} EvidenceIsUniqueOfLeaves(b: Behaviour, path: Path, task: Task, plan: LambdaPlan)
    requires plan.depth >= 0 && Deduplicates(b)
    ensures RefsOf(Phi(b, path, task, plan).outcome) == Unique(LeafRefs(Leaves(b, path, task, plan)))
    decreases plan.depth
  {
    if IsLeaf(plan) {
      var leaf := b.leaf(path, task, plan);
      assert LeafRefs([leaf]) == RefsOf(leaf.outcome) by {
        assert [leaf][..0] == [];
        assert LeafRefs([leaf]) == LeafRefs([leaf][..0]) + RefsOf(leaf.outcome);
      }
    } else {
      var runs, lists := ChildRuns(b, path, task, plan), ChildLeaves(b, path, task, plan);
      forall i | 0 <= i < plan.kStar ensures RefsOf(runs[i].outcome) == Unique(LeafRefs(lists[i])) {
        EvidenceIsUniqueOfLeaves(b, path + [i], b.childTask(task, plan, i), ChildPlan(plan));
      }
      DeduplicateParts(runs, lists);
      CombineDeduplicates(b, path, task, plan, runs);
    }
  }

  lemma CombineDeduplicates(b: Behaviour, path: Path, task: Task, plan: LambdaPlan, runs: seq<Run>)
    requires Deduplicates(b)
    ensures RefsOf(Combine(b, path, task, plan, runs).outcome) == Unique(PartialRefs(Successes(runs)))
  {}

  // ----- which reduce steps must ask the model

  /** A merged result is never itself a trusted answer surface, and without one among the
      partials a rerank or synthesize step makes its model call. */
  ghost predicate AsksModel(b: Behaviour) {
    forall path: Path, task: Task, plan: LambdaPlan, partials: seq<Result>, errors: nat ::
      var run := b.reduce(path, task, plan, partials, errors);
      && run.outcome.Ok? && !run.outcome.result.metadata.answerSurface
      && (ReducesWithOracle(plan.composeOp) && !plan.composeOp.Unknown? && partials != [] && !partials[0].metadata.answerSurface
          ==> run.calls.reduces == 1)
  }

  lemma {:induction false} AllAsk(runs: seq<Run>, g: nat)
    requires forall i | 0 <= i < |runs| ::
               runs[i].calls.reduces >= g && runs[i].outcome.Ok? && !runs[i].outcome.result.metadata.answerSurface
    ensures TotalCalls(runs).reduces >= |runs| * g
    ensures |Successes(runs)| == |runs| && (runs != [] ==> !Successes(runs)[0].metadata.answerSurface)
  {
    if runs != [] { AllAsk(runs[..|runs| - 1], g); }
  }

  /** From depth two on every node above the lowest reduce level makes exactly one model call. */
  lemma {:induction false} UpperLevelsAskModel(b: Behaviour, path: Path, task: Task, plan: LambdaPlan)
    requires plan.depth >= 1 && plan.kStar >= 2 && AsksModel(b)
    requires ReducesWithOracle(plan.composeOp) && !plan.composeOp.Unknown?
    ensures Phi(b, path, task, plan).calls.reduces >= Geometric(plan.kStar, plan.depth - 1)
    ensures Phi(b, path, task, plan).outcome.Ok? && !Phi(b, path, task, plan).outcome.result.metadata.answerSurface
    decreases plan.depth
  {
    if plan.depth >= 2 {
      var runs, k := ChildRuns(b, path, task, plan), plan.kStar;
      var g := Geometric(k, plan.depth - 2);
      forall i | 0 <= i < k
        ensures runs[i].calls.reduces >= g && runs[i].outcome.Ok? && !runs[i].outcome.result.metadata.answerSurface
      {
        UpperLevelsAskModel(b, path + [i], b.childTask(task, plan, i), ChildPlan(plan));
      }
      AllAsk(runs, g);
      GeometricUnfold(k, plan.depth - 1);
    }
  }

  // ----- timestamps

  ghost predicate Unstamped(b: Behaviour) {
    && (forall path: Path, task: Task, plan: LambdaPlan :: var out := b.leaf(path, task, plan).outcome; out.Ok? ==> out.result.metadata.timestamp == "")
    && (forall path: Path, task: Task, plan: LambdaPlan, partials: seq<Result>, errors: nat ::
          var out := b.reduce(path, task, plan, partials, errors).outcome; out.Ok? ==> out.result.metadata.timestamp == "")
  }

  lemma PhiIsUnstamped(b: Behaviour, path: Path, task: Task, plan: LambdaPlan)
    requires plan.depth >= 0 && Unstamped(b) && Phi(b, path, task, plan).outcome.Ok?
    ensures Phi(b, path, task, plan).outcome.result.metadata.timestamp == ""
  {}

  lemma {:induction false} SuccessesComeFromRuns(runs: seq<Run>)
    ensures forall p | p in Successes(runs) :: exists i | 0 <= i < |runs| :: runs[i].outcome == Ok(p)
  {
    if runs != [] {
      var init := runs[..|runs| - 1];
      SuccessesComeFromRuns(init);
      forall p | p in Successes(runs) ensures exists i | 0 <= i < |runs| :: runs[i].outcome == Ok(p) {
        if p in Successes(init) {
          var i :| 0 <= i < |init| && init[i].outcome == Ok(p);
          assert runs[i].outcome == Ok(p);
        } else {
          assert runs[|runs| - 1].outcome == Ok(p);
        }
      }
    }
  }

  /** No result of a run carries a timestamp, so the chronological merge is the plain union. */
  lemma ChronologicalIsUnion(b: Behaviour, path: Path, task: Task, plan: LambdaPlan, time: string -> int)
    requires plan.depth >= 1 && plan.kStar >= 2 && Unstamped(b)
    ensures var partials := Successes(ChildRuns(b, path, task, plan));
            ChronologicalText(partials, time) == UnionText(partials)
  {
    var runs := ChildRuns(b, path, task, plan);
    var partials := Successes(runs);
    SuccessesComeFromRuns(runs);
    forall j | 0 <= j < |partials| ensures partials[j].metadata.timestamp == "" {
      assert partials[j] in partials;
      var i :| 0 <= i < |runs| && runs[i].outcome == Ok(partials[j]);
      PhiIsUnstamped(b, path + [i], b.childTask(task, plan, i), ChildPlan(plan));
    }
    SortOfUnstamped(partials, time);
  }
}
