/**
 Every interleaving of the goroutines of a whole Phi tree (internal/rlm/lambda_runner.go).
 A node is ready, is mapping (its children run, report under the lock, and are awaited), or
 has returned.  One step anywhere in the tree is one step of the system.
 */
module Schedule {
  import opened Saturating
  import opened Planner
  import opened Compose
  import opened PhiTree

  datatype Proc =
    | Ready
    | Mapping(children: seq<Proc>, slots: Slots)
    | Returned(run: Run)

  /** What the children of one node share: results by index, success flags, the error count,
      and the children the wait group has seen finish. */
  datatype Slots = Slots(partialsByIndex: seq<Result>, partialOK: seq<bool>, childErrorCount: nat, done: seq<bool>)

  predicate Sized(p: Proc, n: nat) {
    p.Mapping? && |p.children| == |p.slots.partialsByIndex| == |p.slots.partialOK| == |p.slots.done| == n
  }

  function Spawn(n: nat): (p: Proc)
    ensures Sized(p, n)
  {
    Mapping(seq(n, _ => Ready), Slots(seq(n, _ => NoPartials(0)), seq(n, _ => false), 0, seq(n, _ => false)))
  }

  /** The locked section at the end of a child goroutine. */
  function Record(slots: Slots, i: nat, outcome: Outcome): Slots
    requires i < |slots.partialsByIndex| == |slots.partialOK| == |slots.done|
  {
    match outcome
    case Err => slots.(childErrorCount := slots.childErrorCount + 1, done := slots.done[i := true])
    case Ok(result) =>
      slots.(partialsByIndex := slots.partialsByIndex[i := result], partialOK := slots.partialOK[i := true], done := slots.done[i := true])
  }

  function Collected(partialsByIndex: seq<Result>, partialOK: seq<bool>, n: nat): seq<Result>
    requires n <= |partialsByIndex| == |partialOK|
  {
    if n == 0 then []
    else Collected(partialsByIndex, partialOK, n - 1) + if partialOK[n - 1] then [partialsByIndex[n - 1]] else []
  }

  function CallsOf(children: seq<Proc>): Calls {
    if children == [] then NO_CALLS
    else
      var last := children[|children| - 1];
      CallsOf(children[..|children| - 1]).Plus(if last.Returned? then last.run.calls else NO_CALLS)
  }

  /** After the wait: reduce what the slots hold. */
  function Finish(b: Behaviour, path: Path, task: Task, plan: LambdaPlan, p: Proc): Run
    requires p.Mapping? && Sized(p, |p.children|)
  {
    var partials := Collected(p.slots.partialsByIndex, p.slots.partialOK, |p.children|);
    if partials == [] then Run(Ok(NoPartials(p.slots.childErrorCount)), CallsOf(p.children))
    else
      var reduced := b.reduce(path, task, plan, partials, p.slots.childErrorCount);
      Run(reduced.outcome, CallsOf(p.children).Plus(reduced.calls))
  }

  // ----- steps

  ghost predicate Step(b: Behaviour, path: Path, task: Task, plan: LambdaPlan, p: Proc, q: Proc)
    decreases p
  {
    match p
    case Ready => if IsLeaf(plan) then q == Returned(b.leaf(path, task, plan)) else plan.kStar >= 2 && q == Spawn(plan.kStar)
    case Returned(_) => false
    case Mapping(children, slots) =>
      && plan.depth >= 1 && plan.kStar >= 2 && Sized(p, plan.kStar)
      && (|| (exists i: nat | i < |children| :: MovesChild(b, path, task, plan, p, q, i))
          || (exists i: nat | i < |children| :: Reports(p, q, i))
          || ((forall i | 0 <= i < |slots.done| :: slots.done[i]) && q == Returned(Finish(b, path, task, plan, p))))
  }

  ghost predicate MovesChild(b: Behaviour, path: Path, task: Task, plan: LambdaPlan, p: Proc, q: Proc, i: nat)
    requires p.Mapping? && i < |p.children| && plan.depth >= 1
    decreases p, 0
  {
    && q.Mapping? && |q.children| == |p.children|
    && q == p.(children := p.children[i := q.children[i]])
    && Step(b, path + [i], b.childTask(task, plan, i), ChildPlan(plan), p.children[i], q.children[i])
  }

  ghost predicate Reports(p: Proc, q: Proc, i: nat)
    requires p.Mapping? && Sized(p, |p.children|) && i < |p.children|
  {
    !p.slots.done[i] && p.children[i].Returned? && q == p.(slots := Record(p.slots, i, p.children[i].run.outcome))
  }

  // ----- the invariant

  /** Exactly the children marked done have written their own run's outcome. */
  ghost predicate Holds(slots: Slots, runs: seq<Run>) {
    && |runs| == |slots.partialsByIndex| == |slots.partialOK| == |slots.done|
    && (forall i | 0 <= i < |runs| :: slots.partialOK[i] == (slots.done[i] && runs[i].outcome.Ok?))
    && (forall i | 0 <= i < |runs| && slots.partialOK[i] :: slots.partialsByIndex[i] == runs[i].outcome.result)
    && slots.childErrorCount == DoneErrors(runs, slots.done, |runs|)
  }

  ghost predicate Sound(b: Behaviour, path: Path, task: Task, plan: LambdaPlan, p: Proc)
    requires plan.depth >= 0
    decreases p
  {
    match p
    case Ready => true
    case Returned(run) => run == Phi(b, path, task, plan)
    case Mapping(children, slots) =>
      && plan.depth >= 1 && plan.kStar >= 2 && Sized(p, plan.kStar)
      && Holds(slots, ChildRuns(b, path, task, plan))
      && (forall i | 0 <= i < |children| :: slots.done[i] ==> children[i].Returned?)
      && (forall i | 0 <= i < |children| :: Sound(b, path + [i], b.childTask(task, plan, i), ChildPlan(plan), children[i]))
  }

  lemma {:induction false} CollectedIsSuccesses(slots: Slots, runs: seq<Run>, n: nat)
    requires Holds(slots, runs) && n <= |runs| && forall i | 0 <= i < |runs| :: slots.done[i]
    ensures Collected(slots.partialsByIndex, slots.partialOK, n) == Successes(runs[..n])
  {
    if n > 0 {
      CollectedIsSuccesses(slots, runs, n - 1);
      assert runs[..n][..n - 1] == runs[..n - 1];
    }
  }

  lemma {:induction false} CallsOfReturned(children: seq<Proc>, runs: seq<Run>)
    requires |children| == |runs| && forall i | 0 <= i < |runs| :: children[i] == Returned(runs[i])
    ensures CallsOf(children) == TotalCalls(runs)
  {
    if runs != [] { CallsOfReturned(children[..|runs| - 1], runs[..|runs| - 1]); }
  }

  lemma RecordHolds(slots: Slots, runs: seq<Run>, i: nat)
    requires Holds(slots, runs) && i < |runs| && !slots.done[i]
    ensures Holds(Record(slots, i, runs[i].outcome), runs)
  {
    TallyStep(runs, slots.done, i, |runs|);
  }

  lemma FinishIsPhi(b: Behaviour, path: Path, task: Task, plan: LambdaPlan, p: Proc)
    requires plan.depth >= 1 && plan.kStar >= 2 && Sized(p, plan.kStar)
    requires Holds(p.slots, ChildRuns(b, path, task, plan)) && forall i | 0 <= i < plan.kStar :: p.slots.done[i]
    requires forall i | 0 <= i < plan.kStar :: p.children[i] == Returned(ChildRuns(b, path, task, plan)[i])
    ensures Finish(b, path, task, plan, p) == Phi(b, path, task, plan)
  {
    var runs := ChildRuns(b, path, task, plan);
    CollectedIsSuccesses(p.slots, runs, |runs|);
    AllDone(runs, p.slots.done, |runs|);
    assert runs[..|runs|] == runs;
    CallsOfReturned(p.children, runs);
  }

  lemma SpawnIsSound(b: Behaviour, path: Path, task: Task, plan: LambdaPlan)
    requires plan.depth >= 1 && plan.kStar >= 2
    ensures Sound(b, path, task, plan, Spawn(plan.kStar))
  {
    FreshSlotsHold(ChildRuns(b, path, task, plan));
  }

  lemma FreshSlotsHold(runs: seq<Run>)
    ensures Holds(Spawn(|runs|).slots, runs)
  {
    NoneDone(runs, Spawn(|runs|).slots.done, |runs|);
  }

  lemma ReportKeepsSound(b: Behaviour, path: Path, task: Task, plan: LambdaPlan, p: Proc, q: Proc, i: nat)
    requires plan.depth >= 1 && p.Mapping? && Sound(b, path, task, plan, p) && i < |p.children| && Reports(p, q, i)
    ensures Sound(b, path, task, plan, q)
  {
    var runs := ChildRuns(b, path, task, plan);
    assert Sound(b, path + [i], b.childTask(task, plan, i), ChildPlan(plan), p.children[i]);
    RecordHolds(p.slots, runs, i);
    assert q.slots == Record(p.slots, i, runs[i].outcome);
  }

  lemma FinishKeepsSound(b: Behaviour, path: Path, task: Task, plan: LambdaPlan, p: Proc)
    requires plan.depth >= 1 && p.Mapping? && Sound(b, path, task, plan, p)
    requires forall i | 0 <= i < |p.slots.done| :: p.slots.done[i]
    ensures Finish(b, path, task, plan, p) == Phi(b, path, task, plan)
  {
    var runs := ChildRuns(b, path, task, plan);
    forall i | 0 <= i < plan.kStar ensures p.children[i] == Returned(runs[i]) {
      assert p.slots.done[i];
      assert Sound(b, path + [i], b.childTask(task, plan, i), ChildPlan(plan), p.children[i]);
    }
    FinishIsPhi(b, path, task, plan, p);
  }

  lemma {:induction false} StepKeepsSound(b: Behaviour, path: Path, task: Task, plan: LambdaPlan, p: Proc, q: Proc)
    requires plan.depth >= 0 && Sound(b, path, task, plan, p) && Step(b, path, task, plan, p, q)
    ensures Sound(b, path, task, plan, q)
    decreases p
  {
    if p.Ready? {
      if !IsLeaf(plan) { SpawnIsSound(b, path, task, plan); }
    } else if i: nat :| i < |p.children| && MovesChild(b, path, task, plan, p, q, i) {
      StepKeepsSound(b, path + [i], b.childTask(task, plan, i), ChildPlan(plan), p.children[i], q.children[i]);
      MoveKeepsSound(b, path, task, plan, p, q, i);
    } else if i: nat :| i < |p.children| && Reports(p, q, i) {
      ReportKeepsSound(b, path, task, plan, p, q, i);
    } else {
      FinishKeepsSound(b, path, task, plan, p);
    }
  }

  lemma MoveKeepsSound(b: Behaviour, path: Path, task: Task, plan: LambdaPlan, p: Proc, q: Proc, i: nat)
    requires plan.depth >= 1 && p.Mapping? && Sound(b, path, task, plan, p)
    requires i < |p.children| && MovesChild(b, path, task, plan, p, q, i)
    requires Sound(b, path + [i], b.childTask(task, plan, i), ChildPlan(plan), q.children[i])
    ensures Sound(b, path, task, plan, q)
  {
    assert !p.children[i].Returned?;
    assert forall j | 0 <= j < |q.children| && j != i :: q.children[j] == p.children[j];
  }

  // ----- termination and progress

  /** The number of steps of a node, from ready to returned. */
  function Work(plan: LambdaPlan): nat
    requires plan.depth >= 0
    decreases plan.depth
  {
    if IsLeaf(plan) then 1 else 2 + plan.kStar * (Work(ChildPlan(plan)) + 1)
  }

  /** The steps still to come. */
  function Left(plan: LambdaPlan, p: Proc): nat
    requires plan.depth >= 0
    decreases p, 1, 0
  {
    match p
    case Ready => Work(plan)
    case Returned(_) => 0
    case Mapping(children, slots) =>
      if plan.depth >= 1 && |slots.done| == |children| then 1 + LeftOf(plan, p, |children|) else 0
  }

  function LeftOf(plan: LambdaPlan, p: Proc, n: nat): nat
    requires plan.depth >= 1 && p.Mapping? && n <= |p.children| == |p.slots.done|
    decreases p, 0, n
  {
    if n == 0 then 0
    else LeftOf(plan, p, n - 1) + Left(ChildPlan(plan), p.children[n - 1]) + if p.slots.done[n - 1] then 0 else 1
  }

  lemma {:induction false} LeftOfReady(plan: LambdaPlan, p: Proc, n: nat, each: nat)
    requires plan.depth >= 1 && p.Mapping? && n <= |p.children| == |p.slots.done|
    requires Work(ChildPlan(plan)) + 1 == each && forall i | 0 <= i < n :: p.children[i].Ready? && !p.slots.done[i]
    ensures LeftOf(plan, p, n) == n * each
  {
    if n > 0 {
      LeftOfReady(plan, p, n - 1, each);
      assert n * each == (n - 1) * each + each;
    }
  }

  lemma SpawnTakesOne(plan: LambdaPlan)
    requires plan.depth >= 1 && plan.kStar >= 2
    ensures Left(plan, Ready) == Left(plan, Spawn(plan.kStar)) + 1
  {
    LeftOfReady(plan, Spawn(plan.kStar), plan.kStar, Work(ChildPlan(plan)) + 1);
  }

  lemma {:induction false} LeftOfFinished(plan: LambdaPlan, p: Proc, n: nat)
    requires plan.depth >= 1 && p.Mapping? && n <= |p.children| == |p.slots.done|
    requires forall i | 0 <= i < n :: p.slots.done[i] && p.children[i].Returned?
    ensures LeftOf(plan, p, n) == 0
  {
    if n > 0 { LeftOfFinished(plan, p, n - 1); }
  }

  /** Two states of a node that differ in child i only: the difference is that child's. */
  lemma {:induction false} LeftOfDiffers(plan: LambdaPlan, p: Proc, q: Proc, i: nat, n: nat)
    requires plan.depth >= 1 && p.Mapping? && q.Mapping? && i < |p.children|
    requires n <= |p.children| == |p.slots.done| == |q.children| == |q.slots.done|
    requires forall j | 0 <= j < |p.children| && j != i :: p.children[j] == q.children[j] && p.slots.done[j] == q.slots.done[j]
    requires Left(ChildPlan(plan), p.children[i]) + (if p.slots.done[i] then 0 else 1)
             == Left(ChildPlan(plan), q.children[i]) + (if q.slots.done[i] then 0 else 1) + 1
    ensures LeftOf(plan, p, n) == LeftOf(plan, q, n) + if i < n then 1 else 0
  {
    if n > 0 { LeftOfDiffers(plan, p, q, i, n - 1); }
  }

  lemma ReportTakesOne(plan: LambdaPlan, p: Proc, q: Proc, i: nat)
    requires plan.depth >= 1 && p.Mapping? && Sized(p, |p.children|) && i < |p.children| && Reports(p, q, i)
    ensures Left(plan, p) == Left(plan, q) + 1
  {
    LeftOfDiffers(plan, p, q, i, |p.children|);
  }

  /** Every step of the system takes exactly one unit off what is left. */
  lemma {:induction false} StepTakesOne(b: Behaviour, path: Path, task: Task, plan: LambdaPlan, p: Proc, q: Proc)
    requires plan.depth >= 0 && Sound(b, path, task, plan, p) && Step(b, path, task, plan, p, q)
    ensures Left(plan, p) == Left(plan, q) + 1
    decreases p
  {
    if p.Ready? {
      if !IsLeaf(plan) { SpawnTakesOne(plan); }
    } else if i: nat :| i < |p.children| && MovesChild(b, path, task, plan, p, q, i) {
      StepTakesOne(b, path + [i], b.childTask(task, plan, i), ChildPlan(plan), p.children[i], q.children[i]);
      LeftOfDiffers(plan, p, q, i, |p.children|);
    } else if i: nat :| i < |p.children| && Reports(p, q, i) {
      ReportTakesOne(plan, p, q, i);
    } else {
      LeftOfFinished(plan, p, |p.children|);
    }
  }

  /** A node that has not returned can always move: no deadlock. */
  lemma {:induction false} CanMove(b: Behaviour, path: Path, task: Task, plan: LambdaPlan, p: Proc) returns (q: Proc)
    requires plan.depth >= 0 && Sound(b, path, task, plan, p) && !p.Returned?
    ensures Step(b, path, task, plan, p, q)
    decreases p
  {
    if p.Ready? {
      q := if IsLeaf(plan) then Returned(b.leaf(path, task, plan)) else Spawn(plan.kStar);
    } else if i: nat :| i < |p.children| && !p.children[i].Returned? {
      var c := CanMove(b, path + [i], b.childTask(task, plan, i), ChildPlan(plan), p.children[i]);
      q := p.(children := p.children[i := c]);
      assert MovesChild(b, path, task, plan, p, q, i);
    } else if i: nat :| i < |p.children| && !p.slots.done[i] {
      q := p.(slots := Record(p.slots, i, p.children[i].run.outcome));
      assert Reports(p, q, i);
    } else {
      q := Returned(Finish(b, path, task, plan, p));
    }
  }

  // ----- whole schedules

  ghost predicate IsSchedule(b: Behaviour, path: Path, task: Task, plan: LambdaPlan, trace: seq<Proc>) {
    && trace != [] && trace[0] == Ready
    && forall i | 0 <= i < |trace| - 1 :: Step(b, path, task, plan, trace[i], trace[i + 1])
  }

  /** Every schedule keeps the invariant and has taken exactly as many steps as it is long. */
  lemma {:induction false} ScheduleInvariant(b: Behaviour, path: Path, task: Task, plan: LambdaPlan, trace: seq<Proc>, n: nat)
    requires plan.depth >= 0 && IsSchedule(b, path, task, plan, trace) && n < |trace|
    ensures Sound(b, path, task, plan, trace[n])
    ensures Left(plan, trace[n]) + n == Work(plan)
  {
    if n > 0 {
      ScheduleInvariant(b, path, task, plan, trace, n - 1);
      assert Step(b, path, task, plan, trace[n - 1], trace[n - 1 + 1]);
      StepKeepsSound(b, path, task, plan, trace[n - 1], trace[n]);
      StepTakesOne(b, path, task, plan, trace[n - 1], trace[n]);
    }
  }

  /** Termination and schedule independence: no schedule is longer than Work(plan) steps; one
      that has returned took exactly that many, and returned the outcome and the calls of the
      left-to-right run; any other can go on. */
  lemma ScheduleIndependence(b: Behaviour, path: Path, task: Task, plan: LambdaPlan, trace: seq<Proc>)
    requires plan.depth >= 0 && IsSchedule(b, path, task, plan, trace)
    ensures |trace| - 1 <= Work(plan)
    ensures trace[|trace| - 1].Returned? <==> |trace| - 1 == Work(plan)
    ensures trace[|trace| - 1].Returned? ==> trace[|trace| - 1].run == Phi(b, path, task, plan)
    ensures !trace[|trace| - 1].Returned? ==> exists q :: IsSchedule(b, path, task, plan, trace + [q])
  {
    var last := |trace| - 1;
    ScheduleInvariant(b, path, task, plan, trace, last);
    if !trace[last].Returned? {
      var q := CanMove(b, path, task, plan, trace[last]);
      LongerSchedule(b, path, task, plan, trace, q);
      StepTakesOne(b, path, task, plan, trace[last], q);
    }
  }

  lemma LongerSchedule(b: Behaviour, path: Path, task: Task, plan: LambdaPlan, trace: seq<Proc>, q: Proc)
    requires plan.depth >= 0 && IsSchedule(b, path, task, plan, trace) && Step(b, path, task, plan, trace[|trace| - 1], q)
    ensures IsSchedule(b, path, task, plan, trace + [q])
  {}
}
