/**
 The lambda planner (internal/rlm/lambda.go): branching factor, leaf size, depth, the
 caps a task puts on them, and the estimate of every call the plan may make.
 Square root, logarithm and power are exact here: the least integer that satisfies the
 inequality each of them solves.
 */
module Planner {
  import opened Saturating

  datatype TaskType = CodeLocate | CodeUnderstand | MemoryRecall | EvidenceAudit | General

  datatype ComposeOp = Union | Rerank | Synthesize | Intersection | Chronological | Unknown(name: string)

  datatype ReduceMode = ReduceUnion | ReduceRerank | ReduceSynthesize | ReduceIntersection | ReduceChronological

  function ComposeOpForTask(taskType: TaskType): ComposeOp {
    match taskType
    case CodeLocate => Rerank
    case CodeUnderstand => Synthesize
    case MemoryRecall => Chronological
    case EvidenceAudit => Intersection
    case General => Synthesize
  }

  function ReduceModeForComposeOp(op: ComposeOp): ReduceMode {
    match op
    case Union => ReduceUnion
    case Rerank => ReduceRerank
    case Synthesize => ReduceSynthesize
    case Intersection => ReduceIntersection
    case Chronological => ReduceChronological
    case Unknown(_) => ReduceSynthesize
  }

  datatype LambdaConfig = LambdaConfig(
    contextBudget: Int64, maxK: Int64, cSearch: real, cInspect: real,
    perPhaseAccuracy: real, accuracyTarget: real)
  {
    function Defaults(): (c: LambdaConfig)
      ensures c.contextBudget >= 1 && c.maxK >= 1 && c.cSearch > 0.0 && c.cInspect > 0.0
      ensures c.perPhaseAccuracy > 0.0 && c.accuracyTarget > 0.0
    {
      LambdaConfig(
        if contextBudget <= 0 then 10 else contextBudget,
        if maxK <= 0 then 8 else maxK,
        if cSearch <= 0.0 then 1.0 else cSearch,
        if cInspect <= 0.0 then 3.0 else cInspect,
        if perPhaseAccuracy <= 0.0 then 0.6 else perPhaseAccuracy,
        if accuracyTarget <= 0.0 then 0.5 else accuracyTarget)
    }
  }

  datatype LambdaPlan = LambdaPlan(
    taskType: TaskType, composeOp: ComposeOp, kStar: Int64, tauStar: Int64, depth: Int64, n: Int64)

  // ----- exact square root, logarithm and power

  function Square(r: nat): real { (r * r) as real }

  ghost predicate IsCeilSqrt(r: nat, x: real) {
    Square(r) >= x && forall j: nat | j < r :: Square(j) < x
  }

  lemma SquareExceeds(r: nat)
    ensures Square(r) >= r as real
  {
    assert r * r >= r;
  }

  function CeilSqrt(x: real, from: nat := 0): (r: nat)
    requires forall j: nat | j < from :: Square(j) < x
    ensures IsCeilSqrt(r, x)
    decreases if Square(from) >= x then 0 else x.Floor + 1 - from
  {
    SquareExceeds(from);
    if Square(from) >= x then from else CeilSqrt(x, from + 1)
  }

  /** d is the least depth at which k-way splitting brings n down to the budget. */
  ghost predicate IsLeastDepth(d: nat, k: nat, budget: nat, n: int) {
    Pow(k, d) * budget >= n && forall j: nat | j < d :: Pow(k, j) * budget < n
  }

  function CeilLog(k: nat, budget: nat, n: nat, from: nat := 0): (d: nat)
    requires k >= 2 && budget >= 1
    requires forall j: nat | j < from :: Pow(k, j) * budget < n
    ensures IsLeastDepth(d, k, budget, n) && d <= n
    decreases if Pow(k, from) * budget >= n then 0 else n + 1 - from
  {
    DepthAtMost(k, budget, n, from);
    if Pow(k, from) * budget >= n then from else CeilLog(k, budget, n, from + 1)
  }

  /** Depths whose leaves still fall short of n are below n. */
  lemma DepthAtMost(k: nat, budget: nat, n: nat, from: nat)
    requires k >= 2 && budget >= 1 && forall j: nat | j < from :: Pow(k, j) * budget < n
    ensures from <= n && (Pow(k, from) * budget < n ==> from < n)
  {
    PowExceeds(k, from);
    BudgetGrows(Pow(k, from), budget);
    if from > 0 {
      PowExceeds(k, from - 1);
      BudgetGrows(Pow(k, from - 1), budget);
    }
  }

  lemma BudgetGrows(power: nat, budget: nat)
    requires budget >= 1
    ensures power * budget >= power
  {}

  function PowReal(p: real, e: nat): real {
    if e == 0 then 1.0 else p * PowReal(p, e - 1)
  }

  // ----- PlanLambda

  /** The depth for branching factor k.  With k == 1 the logarithm is zero, the quotient
      infinite, and its conversion to int platform-defined: infinityAsInt. */
  function DepthFor(n: Int64, budget: Int64, k: Int64, infinityAsInt: Int64): (d: Int64)
    requires n > budget >= 1 && k >= 1
    ensures d >= 1
  {
    if k == 1 then Max(1, infinityAsInt) else Max(1, CeilLog(k, budget, n))
  }

  lemma DepthIsLeast(n: Int64, budget: Int64, k: Int64, infinityAsInt: Int64)
    requires n > budget >= 1 && k >= 2
    ensures IsLeastDepth(DepthFor(n, budget, k, infinityAsInt), k, budget, n)
  {
    assert Pow(k, 0) == 1;
  }

  /** The real number whose square root the branching factor starts from. */
  function CostRatio(n: Int64, c: LambdaConfig): real
    requires c.cInspect > 0.0
  {
    (n as real) * c.cSearch / c.cInspect
  }

  function StartBranching(n: Int64, c: LambdaConfig): (k: Int64)
    requires n >= 1 && c.cSearch > 0.0 && c.cInspect > 0.0 && c.maxK >= 1
    ensures k >= 1
  {
    var root := CeilSqrt(CostRatio(n, c));
    ClampInt(root, 2, c.maxK)
  }

  function BranchingCap(n: Int64, c: LambdaConfig): Int64
    requires c.contextBudget >= 1 && n >= 1
  {
    Min(c.maxK, Max(2, n / c.contextBudget))
  }

  predicate MeetsAccuracy(n: Int64, c: LambdaConfig, k: Int64, infinityAsInt: Int64)
    requires n > c.contextBudget >= 1 && k >= 1
  {
    PowReal(c.perPhaseAccuracy, DepthFor(n, c.contextBudget, k, infinityAsInt)) >= c.accuracyTarget
  }

  ghost predicate NoneMeets(n: Int64, c: LambdaConfig, from: Int64, to: Int64, infinityAsInt: Int64)
    requires n > c.contextBudget >= 1 && from >= 1
  {
    forall j: Int64 | from <= j < to :: !MeetsAccuracy(n, c, j, infinityAsInt)
  }

  lemma NoneMeetsExtend(n: Int64, c: LambdaConfig, from: Int64, to: Int64, infinityAsInt: Int64)
    requires n > c.contextBudget >= 1 && 1 <= from <= to < MAX_INT
    requires NoneMeets(n, c, from, to, infinityAsInt) && !MeetsAccuracy(n, c, to, infinityAsInt)
    ensures NoneMeets(n, c, from, to + 1, infinityAsInt)
  {}

  /** k is where the search from the start value ends: the first factor that meets the
      accuracy target, or the cap when none below it does. */
  ghost predicate IsChosenBranching(n: Int64, c: LambdaConfig, k: Int64, infinityAsInt: Int64)
    requires n > c.contextBudget >= 1 && c.cSearch > 0.0 && c.cInspect > 0.0 && c.maxK >= 1
  {
    var start, cap := StartBranching(n, c), BranchingCap(n, c);
    && start <= k <= Max(start, cap)
    && NoneMeets(n, c, start, k, infinityAsInt)
    && (k < cap ==> MeetsAccuracy(n, c, k, infinityAsInt))
  }

  /** The start value is the least factor k, from 2 up to the cap, with k * k * inspection cost at
      least n * search cost. */
  lemma StartIsLeast(n: Int64, c: LambdaConfig)
    requires n >= 1 && c.cSearch > 0.0 && c.cInspect > 0.0 && c.maxK >= 2
    ensures var k := StartBranching(n, c);
            && 2 <= k <= c.maxK
            && (k < c.maxK ==> ((k * k) as real) * c.cInspect >= (n as real) * c.cSearch)
            && (k > 2 ==> (((k - 1) * (k - 1)) as real) * c.cInspect < (n as real) * c.cSearch)
  {
    var k, x := StartBranching(n, c), CostRatio(n, c);
    assert x * c.cInspect == (n as real) * c.cSearch;
    var root := CeilSqrt(x);
    if k < c.maxK {
      SquareMonotone(root, k);
      ScaleOrder(x, Square(k), c.cInspect);
    }
    if k > 2 {
      assert k - 1 < root && Square(k - 1) < x;
      ScaleStrictOrder(Square(k - 1), x, c.cInspect);
    }
  }

  lemma SquareMonotone(a: nat, b: nat)
    requires a <= b
    ensures Square(a) <= Square(b)
  {
    assert a * a <= a * b <= b * b;
  }

  lemma ScaleOrder(x: real, y: real, c: real)
    requires x <= y && c > 0.0
    ensures x * c <= y * c
  {}

  lemma ScaleStrictOrder(x: real, y: real, c: real)
    requires x < y && c > 0.0
    ensures x * c < y * c
  {}

  /** The accuracy of a depth is a power: of one factor per phase. */
  lemma {:induction false} PowRealLaws(p: real, a: nat, b: nat)
    ensures PowReal(p, 0) == 1.0 && PowReal(p, 1) == p
    ensures PowReal(p, a + b) == PowReal(p, a) * PowReal(p, b)
  {
    if a > 0 {
      PowRealLaws(p, a - 1, b);
      assert p * (PowReal(p, a - 1) * PowReal(p, b)) == (p * PowReal(p, a - 1)) * PowReal(p, b);
    } else {
      assert PowReal(p, 1) == p * PowReal(p, 0);
    }
  }

  /** Where the search for accuracy ends short of its target, no further factor was allowed: it is
      at MaxK, or one more branch would leave less than a budget for each. */
  lemma ShortOfTargetIsAtLimit(n: Int64, c: LambdaConfig, k: Int64, infinityAsInt: Int64)
    requires n > c.contextBudget >= 1 && c.cSearch > 0.0 && c.cInspect > 0.0 && c.maxK >= 1
    requires IsChosenBranching(n, c, k, infinityAsInt)
    ensures PowReal(c.perPhaseAccuracy, DepthFor(n, c.contextBudget, k, infinityAsInt)) < c.accuracyTarget ==>
              k >= c.maxK || (k >= 2 && (k + 1) * c.contextBudget > n)
    ensures k > StartBranching(n, c) ==> k <= c.maxK && (k == 2 || k * c.contextBudget <= n)
  {
    var q := n / c.contextBudget;
    assert n == q * c.contextBudget + n % c.contextBudget;
    if k >= 2 && k >= q { ProductOrder(q + 1, k + 1, c.contextBudget); }
    if k <= q { ProductOrder(k, q, c.contextBudget); }
  }

  lemma ProductOrder(a: nat, b: nat, c: nat)
    requires a <= b
    ensures a * c <= b * c
  {}

  /** The operator of each kind of task, and which of them ask the model when they reduce. */
  lemma OperatorOfTask(taskType: TaskType)
    ensures ComposeOpForTask(taskType).Rerank? <==> taskType.CodeLocate?
    ensures ComposeOpForTask(taskType).Chronological? <==> taskType.MemoryRecall?
    ensures ComposeOpForTask(taskType).Intersection? <==> taskType.EvidenceAudit?
    ensures ComposeOpForTask(taskType).Synthesize? <==> taskType.CodeUnderstand? || taskType.General?
    ensures ReducesWithOracle(ComposeOpForTask(taskType)) <==> !taskType.MemoryRecall? && !taskType.EvidenceAudit?
  {}

  /** A setting is kept exactly if it is positive; the rest get their defaults. */
  lemma DefaultsSpec(c: LambdaConfig)
    ensures DEFAULTS == LambdaConfig(10, 8, 1.0, 3.0, 0.6, 0.5)
    ensures c.Defaults().contextBudget in {c.contextBudget, 10} && c.Defaults().maxK in {c.maxK, 8}
    ensures c.contextBudget > 0 && c.maxK > 0 && c.cSearch > 0.0 && c.cInspect > 0.0 && c.perPhaseAccuracy > 0.0 && c.accuracyTarget > 0.0
            <==> c.Defaults() == c
  {}

  /** One leaf when n fits the budget; else the chosen factor with the least depth that covers n
      with leaves of budget size, and short of the accuracy target only at the limit. */
  ghost predicate IsPlan(taskType: TaskType, n: Int64, config: LambdaConfig, infinityAsInt: Int64, plan: LambdaPlan) {
    var c := config.Defaults();
    && plan.taskType == taskType && plan.composeOp == ComposeOpForTask(taskType) && plan.n == n
    && if n <= c.contextBudget then plan.kStar == 1 && plan.tauStar == n && plan.depth == 0
       else
         && IsChosenBranching(n, c, plan.kStar, infinityAsInt)
         && plan.depth >= 1
         && (plan.kStar >= 2 ==> IsLeastDepth(plan.depth, plan.kStar, c.contextBudget, n))
         && (plan.kStar == 1 ==> plan.depth == Max(1, infinityAsInt))
         && plan.tauStar == Min(c.contextBudget, Max(1, n / plan.kStar))
         && (PowReal(c.perPhaseAccuracy, plan.depth) < c.accuracyTarget ==>
               plan.kStar >= c.maxK || (plan.kStar >= 2 && (plan.kStar + 1) * c.contextBudget > n))
  }

  method PlanLambda(taskType: TaskType, n: Int64, config: LambdaConfig, infinityAsInt: Int64) returns (plan: LambdaPlan)
    ensures IsPlan(taskType, n, config, infinityAsInt, plan)
  {
    var c := config.Defaults();
    var composeOp := ComposeOpForTask(taskType);
    var K := c.contextBudget;
    if n <= K {
      return LambdaPlan(taskType, composeOp, 1, n, 0, n);
    }
    var kStar := StartBranching(n, c);
    var depth := DepthFor(n, K, kStar, infinityAsInt);
    var maxK := BranchingCap(n, c);
    while PowReal(c.perPhaseAccuracy, depth) < c.accuracyTarget && kStar < maxK
      invariant StartBranching(n, c) <= kStar <= Max(StartBranching(n, c), maxK)
      invariant depth == DepthFor(n, K, kStar, infinityAsInt)
      invariant NoneMeets(n, c, StartBranching(n, c), kStar, infinityAsInt)
      decreases maxK - kStar
    {
      NoneMeetsExtend(n, c, StartBranching(n, c), kStar, infinityAsInt);
      kStar := kStar + 1;
      depth := DepthFor(n, K, kStar, infinityAsInt);
    }
    if kStar >= 2 { DepthIsLeast(n, K, kStar, infinityAsInt); }
    ShortOfTargetIsAtLimit(n, c, kStar, infinityAsInt);
    var tauStar := Min(K, Max(1, n / kStar));
    plan := LambdaPlan(taskType, composeOp, kStar, tauStar, depth, n);
  }

  /** With at least two branches allowed, the chosen factor stays within MaxK; with one, the
      clamp yields 1 or 2 depending on the square root. */
  lemma BranchingWithinMaxK(n: Int64, c: LambdaConfig, k: Int64)
    requires n >= 1 && c.contextBudget >= 1 && c.cSearch > 0.0 && c.cInspect > 0.0 && c.maxK >= 1
    requires StartBranching(n, c) <= k <= Max(StartBranching(n, c), BranchingCap(n, c))
    ensures c.maxK >= 2 ==> 2 <= k <= c.maxK
    ensures c.maxK == 1 ==> k == if CeilSqrt(CostRatio(n, c)) >= 2 then 1 else 2
  {
    var root := CeilSqrt(CostRatio(n, c));
    assert StartBranching(n, c) == ClampInt(root, 2, c.maxK);
  }

  /** What the leaves of a fresh plan hold: nearly all n items, and all of them from depth two on. */
  lemma PlanCoverage(n: int, budget: nat, k: nat, depth: nat, tau: int)
    requires n > budget >= 1 && k >= 2 && depth >= 1
    requires IsLeastDepth(depth, k, budget, n) && tau == Min(budget, Max(1, n / k))
    ensures Pow(k, depth) * tau > n - k
    ensures depth >= 2 ==> Pow(k, depth) * tau >= n
    ensures depth == 1 ==> (k * tau >= n <==> n % k == 0 || n < k || n / k >= budget)
  {
    FirstPowers(k);
    PowMonotone(k, 1, depth);
    if depth >= 2 { PowMonotone(k, 2, depth); }
    OneSplitCovers(n, k, Max(1, n / k));
    PowerCovers(n, budget, k, Pow(k, depth), tau);
  }

  /** With the default configuration eleven items are planned as two leaves of five: one item is
      left uncovered. */
  lemma DefaultPlanMissesAnItem(k: Int64, infinityAsInt: Int64)
    requires IsChosenBranching(11, DEFAULTS, k, infinityAsInt)
    ensures k == 2 && DepthFor(11, DEFAULTS.contextBudget, k, infinityAsInt) == 1
    ensures Pow(k, 1) * Min(DEFAULTS.contextBudget, Max(1, 11 / k)) == 10
  {
    assert CostRatio(11, DEFAULTS) == 11.0 / 3.0 && Square(1) == 1.0 && Square(2) == 4.0;
    var root := CeilSqrt(CostRatio(11, DEFAULTS));
    assert root == 2 by { assert root > 1; }
    FirstPowers(2);
    DepthIsLeast(11, DEFAULTS.contextBudget, 2, infinityAsInt);
    assert Pow(2, 0) == 1;
  }

  const DEFAULTS := LambdaConfig(0, 0, 0.0, 0.0, 0.0, 0.0).Defaults()

  lemma PowerCovers(n: int, budget: nat, k: nat, power: nat, tau: int)
    requires k >= 2 && budget >= 1 && power >= k && power * budget >= n
    requires tau == budget || (tau >= 1 && k * tau > n - k)
    ensures power * tau > n - k
    ensures power >= k * k ==> power * tau >= n
  {
    if tau != budget {
      Product(k, power, tau);
      if power >= k * k {
        TwiceSplitCovers(n, k, tau);
        assert (k * k) * tau == k * (k * tau);
        Product(k * k, power, tau);
      }
    }
  }

  lemma FirstPowers(k: nat)
    ensures Pow(k, 1) == k && Pow(k, 2) == k * k
  {
    assert Pow(k, 1) == k * Pow(k, 0) && Pow(k, 2) == k * Pow(k, 1);
  }

  lemma Product(a: nat, b: nat, c: nat)
    requires a <= b
    ensures a * c <= b * c
  {}

  lemma OneSplitCovers(n: int, k: nat, tau: nat)
    requires n >= 1 && k >= 2 && tau == Max(1, n / k)
    ensures k * tau > n - k
    ensures k * tau >= n <==> n % k == 0 || n < k
  {
    assert n == k * (n / k) + n % k;
    if n < k { assert n / k == 0; } else { assert n / k >= 1; }
  }

  lemma TwiceSplitCovers(n: int, k: nat, tau: nat)
    requires k >= 2 && tau >= 1 && k * tau > n - k
    ensures k * (k * tau) >= n
  {
    var m := k * tau;
    assert m >= 1;
    assert k * m == (k - 1) * m + m;
    assert (k - 1) * m >= k - 1;
  }

  // ----- capLambdaPlanForTask

  datatype PlanCaps = PlanCaps(kStarCapped: bool, depthCapped: bool)

  /** The caps only ever shrink the tree, never beyond the limits given, and leave either a
      single leaf (k = 1, depth = 0) or a real tree (k >= 2, depth >= 1). */
  ghost predicate IsCapped(original: LambdaPlan, maxSubcalls: Int64, maxDepth: Int64, config: LambdaConfig, plan: LambdaPlan) {
    var budget, kCapped, depthCapped := config.Defaults().contextBudget, 0 < maxSubcalls < original.kStar, 0 < maxDepth < original.depth;
    && plan.taskType == original.taskType && plan.composeOp == original.composeOp && plan.n == original.n
    && (plan.kStar >= 2 && plan.depth >= 1 <==> original.kStar >= 2 && original.depth >= 1 && maxSubcalls != 1)
    && (!(plan.kStar >= 2 && plan.depth >= 1) ==> plan.kStar == 1 && plan.depth == 0)
    && (plan.kStar >= 2 ==>
          && plan.kStar == (if kCapped then maxSubcalls else original.kStar)
          && plan.depth == (if depthCapped then maxDepth else original.depth))
    && (plan.kStar == 1 && plan.n > 0 ==> plan.tauStar == Min(budget, Max(1, plan.n)))
    && (plan.kStar >= 2 && kCapped && plan.n > 0 ==> plan.tauStar == Min(budget, Max(1, CeilDivInt(plan.n, plan.kStar))))
    && (plan.kStar >= 2 && kCapped && plan.n > 0 && plan.n + plan.kStar - 1 <= MAX_INT ==>
          plan.tauStar == budget || plan.kStar * plan.tauStar >= plan.n)
    && (plan.n <= 0 || (plan.kStar >= 2 && !kCapped) ==> plan.tauStar == original.tauStar)
  }

  method CapLambdaPlanForTask(original: LambdaPlan, maxSubcalls: Int64, maxDepth: Int64, config: LambdaConfig)
    returns (plan: LambdaPlan, caps: PlanCaps)
    ensures IsCapped(original, maxSubcalls, maxDepth, config, plan)
    ensures caps == PlanCaps(0 < maxSubcalls < original.kStar, 0 < maxDepth < original.depth)
  {
    var c := config.Defaults();
    plan := original;
    caps := PlanCaps(false, false);
    var kCapped := false;
    if maxSubcalls > 0 && plan.kStar > maxSubcalls {
      plan := plan.(kStar := Max(1, maxSubcalls));
      caps := caps.(kStarCapped := true);
      kCapped := true;
    }
    if maxDepth > 0 && plan.depth > maxDepth {
      plan := plan.(depth := maxDepth);
      caps := caps.(depthCapped := true);
    }
    if plan.kStar <= 1 || plan.depth <= 0 {
      plan := plan.(kStar := 1, depth := 0);
      if plan.n > 0 {
        plan := plan.(tauStar := Min(c.contextBudget, Max(1, plan.n)));
      }
      return;
    }
    if kCapped && plan.n > 0 {
      plan := plan.(tauStar := Min(c.contextBudget, Max(1, CeilDivInt(plan.n, plan.kStar))));
      CappedLeavesCover(plan.n, plan.kStar, c.contextBudget);
    }
  }

  lemma CappedLeavesCover(n: Int64, k: Int64, budget: Int64)
    requires n >= 1 && k >= 1
    ensures n + k - 1 <= MAX_INT ==>
              var tau := Min(budget, Max(1, CeilDivInt(n, k)));
              tau == budget || k * tau >= n
  {
    assert n + k - 1 <= MAX_INT ==> n <= CeilDivInt(n, k) * k;
  }

  // ----- BuildLambdaProgram

  datatype SplitMode = SplitNone | SplitQueryVariants

  datatype VerifierMode = VerifierNone | LeafOracle | ReduceOracle

  datatype LambdaProgram = LambdaProgram(
    splitMode: SplitMode, reduceMode: ReduceMode, leafVerifierMode: VerifierMode, reduceVerifierMode: VerifierMode,
    leafThreshold: Int64, branchingFactor: Int64, maxDepth: Int64,
    estimatedLeafCalls: Int64, estimatedReduceCalls: Int64, estimatedSearchCalls: Int64,
    estimatedLoadCalls: Int64, estimatedTotalCalls: Int64)

  /** The plan describes a tree with more than one leaf. */
  predicate Splits(plan: LambdaPlan) {
    plan.depth > 0 && plan.kStar > 1
  }

  /** The most evidence loads the estimate grants one leaf. */
  function LeafLimit(plan: LambdaPlan, config: LambdaConfig): (t: Int64)
    ensures t >= 1 && t >= plan.tauStar
  {
    if plan.tauStar <= 0 then Min(config.Defaults().contextBudget, Max(1, plan.n)) else plan.tauStar
  }

  function TrueLeaves(plan: LambdaPlan): nat {
    if Splits(plan) then Pow(plan.kStar, plan.depth) else 1
  }

  predicate ReducesWithOracle(op: ComposeOp) {
    ReduceModeForComposeOp(op) in {ReduceRerank, ReduceSynthesize}
  }

  function TrueReduceCalls(plan: LambdaPlan): nat {
    if Splits(plan) && ReducesWithOracle(plan.composeOp) then Geometric(plan.kStar, plan.depth) else 0
  }

  function TrueLoads(plan: LambdaPlan, config: LambdaConfig): nat {
    LoadsOf(TrueLeaves(plan), LeafLimit(plan, config))
  }

  function LoadsOf(leaves: nat, limit: nat): nat { leaves * limit }

  /** Searches + loads + leaf judgements + reduce calls, as exact numbers. */
  function TrueTotalCalls(plan: LambdaPlan, config: LambdaConfig): nat {
    TrueLeaves(plan) + TrueLoads(plan, config) + TrueLeaves(plan) + TrueReduceCalls(plan)
  }

  /** Each estimate is the exact number, cut off once at the largest int. */
  method BuildLambdaProgram(plan: LambdaPlan, config: LambdaConfig) returns (program: LambdaProgram)
    ensures program.estimatedTotalCalls == Saturate(TrueTotalCalls(plan, config))
    ensures program.estimatedLeafCalls == program.estimatedSearchCalls == Saturate(TrueLeaves(plan))
    ensures program.estimatedReduceCalls == Saturate(TrueReduceCalls(plan))
    ensures program.estimatedLoadCalls == Saturate(TrueLoads(plan, config))
    ensures program.branchingFactor == (if Splits(plan) then plan.kStar else 1)
    ensures program.maxDepth == (if Splits(plan) then plan.depth else 0)
    ensures program.splitMode == (if Splits(plan) then SplitQueryVariants else SplitNone)
    ensures program.leafThreshold == LeafLimit(plan, config)
    ensures program.reduceMode == ReduceModeForComposeOp(plan.composeOp) && program.leafVerifierMode == LeafOracle
    ensures program.reduceVerifierMode == (if ReducesWithOracle(plan.composeOp) then ReduceOracle else VerifierNone)
  {
    var c := config.Defaults();
    var leafThreshold := plan.tauStar;
    if leafThreshold <= 0 {
      leafThreshold := Min(c.contextBudget, Max(1, plan.n));
    }
    var branchingFactor: Int64 := Max(1, plan.kStar);
    var maxDepth: Int64 := Max(0, plan.depth);
    var splitMode := SplitQueryVariants;
    if maxDepth == 0 || branchingFactor <= 1 {
      splitMode := SplitNone;
      branchingFactor := 1;
      maxDepth := 0;
    }
    var reduceMode := ReduceModeForComposeOp(plan.composeOp);
    var reduceVerifierMode := VerifierNone;
    if reduceMode == ReduceRerank || reduceMode == ReduceSynthesize {
      reduceVerifierMode := ReduceOracle;
    }
    var leafCalls := BoundedPowInt(branchingFactor, maxDepth);
    var reduceCalls: Int64 := 0;
    if reduceVerifierMode == ReduceOracle && maxDepth > 0 {
      reduceCalls := InternalNodeCount(branchingFactor, maxDepth);
    }
    var searchCalls := leafCalls;
    var loadCalls := SaturatingMulInt(leafCalls, leafThreshold);
    var totalCalls := SaturatingAddInt([searchCalls, loadCalls, leafCalls, reduceCalls]);
    PowMonotone(branchingFactor, 0, maxDepth);
    TotalSaturatesOnce(TrueLeaves(plan), leafThreshold, TrueReduceCalls(plan));
    program := LambdaProgram(
      splitMode, reduceMode, LeafOracle, reduceVerifierMode, leafThreshold, branchingFactor, maxDepth,
      leafCalls, reduceCalls, searchCalls, loadCalls, totalCalls);
  }

  /** Saturating each part and then the sum is saturating the exact sum. */
  lemma TotalSaturatesOnce(leaves: nat, limit: Int64, reduces: nat)
    requires limit >= 1 && leaves >= 1
    ensures Saturate(Max(0, Saturate(leaves)) * Max(0, limit)) == Saturate(leaves * limit)
    ensures Saturate(SumPositive([Saturate(leaves), Saturate(leaves * limit), Saturate(leaves), Saturate(reduces)]))
            == Saturate(leaves + leaves * limit + leaves + reduces)
  {
    SaturateMul(leaves, limit);
    SumOfFour(Saturate(leaves), Saturate(leaves * limit), Saturate(leaves), Saturate(reduces));
  }

  lemma SumOfFour(a: nat, b: nat, c: nat, d: nat)
    ensures SumPositive([a, b, c, d]) == a + b + c + d
  {
    SumPositiveAppend([], a);
    SumPositiveAppend([a], b);
    SumPositiveAppend([a, b], c);
    SumPositiveAppend([a, b, c], d);
    assert [] + [a] == [a] && [a] + [b] == [a, b] && [a, b] + [c] == [a, b, c] && [a, b, c] + [d] == [a, b, c, d];
  }

  lemma SumPositiveAppend(s: seq<int>, x: int)
    ensures SumPositive(s + [x]) == SumPositive(s) + Max(0, x)
  {
    assert (s + [x])[..|s|] == s;
  }
}
