# Verified model of foxctl's core algorithms

A Dafny model of six pieces of this repository, with proofs of what they promise.

* **Lambda runner** (`internal/rlm`). `Saturating.dfy`, `Planner.dfy` and `QueryVariants.dfy` model the
  planner: branching factor, leaf size, depth, task caps, and the saturating estimate of all calls.
  `Compose.dfy` holds the deterministic merges, `Runner.dfy` the leaf, the split, the reduce step and the
  recursive executor over a shared call meter. `PhiTree.dfy` is the shape of the recursion for any leaf and
  reduce behaviour, `PhiTheorems.dfy` what follows for every tree, `Schedule.dfy` every interleaving of the
  goroutines of a whole tree, `NodeAnswers.dfy` what single nodes answer, and `Guarantees.dfy` the results for the
  runner. Search, evidence loading, graph expansion and the model are an arbitrary oracle: each reply may depend
  on the node and on all that the code passes to it, and each call may fail. Square root, logarithm and power are exact: the least integer
  that satisfies the inequality each of them solves. Every `int` is a 64-bit subset type, so the proofs also
  show that no intermediate result overflows, except where wrap-around is written out (`CeilDivInt`).
* **Audit hash chain** (`foxcular/audit`). `AuditChain.dfy` models signing and verifying, `AuditDrain.dfy` the
  drain as an object and concurrent sends as a state machine with separate lock, deliver and fail steps. Keys are
  brought to block size as HMAC does (section 2 of RFC 2104); on blocks and payloads the MAC is any injective
  function, and `MacWitness.dfy` shows that there is one. The payload does not cover the error message, the
  forced flag or sub-millisecond time, so the results speak of equal payloads, not equal events.
* **Re-export origins** (`scripts/check-frontend-dead-exports.ts`): `Reexports.dfy`.
* **Event cloning and redaction** (`foxcular`): `EventTree.dfy` models nested maps and slices on the heap and the
  deep copy; `Redaction.dfy` the in-place rewrite of the copy.
* **Text scanners** (`internal/rlm`): `EvidenceToken.dfy`, `Sanitizer.dfy`, with the string operations in `Text.dfy`.
* **Two small state machines**: `IdleThrottle.dfy` and `Correlation.dfy`.

`StableSort.dfy`, `Sets.dfy` and `Options.dfy` are shared helpers. `dafny verify dfyconfig.toml` checks everything.

## Where code and documentation differ

* `foxcular/README.md:160` verifies a list read back from NDJSON. A reloaded sequence number is a float, which the
  unsigned-integer assertion in `Verify` reads as 0, so a reloaded list is accepted only when it is empty
  (`AuditChain.ReloadedAcceptedIffEmpty`).
* `foxcular/audit/audit.go:167` says verification fails if a different key was used. HMAC fills short keys up with
  zero bytes and hashes long ones, so it is accepted under exactly the keys with the same block
  (`AuditChain.AcceptedIffSameKeyBlock`): a list signed with `k` verifies with `k` and a zero byte
  (`AuditChain.PaddedKeyIsAccepted`).
* A signed event verifies only if its Data held no audit keys before signing, because signing hashes them and
  verifying strips them (`AuditChain.SignedPassesIffClean`).
* `internal/rlm/lambda.go:40` says the chronological merge sorts by recency. No leaf and no reduce step ever sets the
  `timestamp` entry, so in every run that merge is the plain union (`Guarantees.TreeChronology`).
* `foxcular/redact.go:14` says values of sensitive keys are always masked. Only strings directly under the key are;
  a secret in a list under it is merely scrubbed by the value patterns (`Redaction.MaskedIffString`).
* The token search jumps past every occurrence it rejects. It decides "some delimited occurrence" for all texts exactly
  for tokens whose self-overlaps are all preceded by a token byte (`EvidenceToken.ScanDecidesIffSkipSafe`).
* At depth one the floor division for the leaf size may leave items uncovered; `Planner.PlanCoverage` says exactly when.
  With the default configuration eleven items are planned as two leaves of five (`Planner.DefaultPlanMissesAnItem`).
* Uses are recorded under `file#name`. Two exports can share such a key, if one path and the other name contain the
  separator, and then an unused export is not reported (`Reexports.DeadIffUnusedAndUnshadowed`,
  `Reexports.UnusedButNotDead`).
* With `MaxK` 1 the branching factor becomes 1, the logarithm divides by zero, and the depth is whatever the platform
  converts an infinite float to; that value is a parameter (`infinityAsInt`) of `Planner.PlanLambda`.

## Model

| member | source | states |
|---|---|---|
| `Saturating.BoundedPowInt` | `internal/rlm/lambda.go:383-398` | for base and exponent at least 1 and 0: exactly min(base^exp, MaxInt), without intermediate overflow |
| `Saturating.InternalNodeCount` | `internal/rlm/lambda.go:400-420` | exactly min(sum of b^i for i below depth, MaxInt) for b at least 2; 0 for degenerate trees |
| `Saturating.SaturatingMulInt` | `internal/rlm/lambda.go:422-430` | the product of the non-negative parts, cut off at MaxInt |
| `Saturating.SaturatingAddInt` | `internal/rlm/lambda.go:432-444` | the exact sum of the positive arguments, cut off once at MaxInt |
| `Saturating.LeavesFromInternalNodes` | `internal/rlm/lambda.go:400-420` | leaves = internal nodes * (b - 1) + 1 in a full b-ary tree |
| `Saturating.CeilDivIsCeilingIffNoOverflow` | `internal/rlm/lambda.go:373-381` | the result is the ceiling exactly when n + d - 1 does not overflow |
| `Planner.PlanLambda` | `internal/rlm/lambda.go:227-273` | one leaf when n fits the budget; otherwise the first branching factor from the start value that meets the accuracy target, or one at MaxK or with less than a budget for one more branch; with the least depth d such that k^d leaves of budget size hold n |
| `Planner.StartIsLeast` | `internal/rlm/lambda.go:244-246` | the start value is the least factor, up to the cap, whose square covers n at the ratio of the two costs |
| `Planner.ShortOfTargetIsAtLimit` | `internal/rlm/lambda.go:251-256` | a factor that misses the accuracy target is at MaxK or leaves less than a budget for one more branch |
| `Planner.BranchingWithinMaxK` | `internal/rlm/lambda.go:245-253` | the chosen factor stays within MaxK when MaxK is at least 2; what the clamp yields when MaxK is 1 |
| `Planner.PlanCoverage` | `internal/rlm/lambda.go:244-258` | k^depth * tau exceeds n - k, reaches n from depth two on, and at depth one reaches n exactly under a divisibility condition |
| `Planner.DefaultPlanMissesAnItem` | `internal/rlm/lambda.go:244-258` | concretely: the defaults plan eleven items as two leaves of five |
| `Planner.CapLambdaPlanForTask` | `internal/rlm/lambda.go:346-371` | when the plan is cut to a single leaf, which limits bind, the recorded caps, and that a capped tree still covers n or uses full leaves |
| `Planner.BuildLambdaProgram` | `internal/rlm/lambda.go:277-325` | every estimate is the exact count cut off once at MaxInt, and the modes follow the plan |
| `Planner.TotalSaturatesOnce` | `internal/rlm/lambda.go:299-306` | saturating each part and then the sum equals saturating the true total |
| `QueryVariants.QueryVariants` | `internal/rlm/lambda_classify.go:132-169` | exactly max(1, k) formulations, the query first, only the query repeated |
| `QueryVariants.FormulationsSpec` | `internal/rlm/lambda_classify.go:136-160` | the formulations are exactly the query, its keywords and symbols unless blank, and its last four words if it has more than two |
| `QueryVariants.FormulationsOrder` | `internal/rlm/lambda_classify.go:136-160` | they stand in that order, each at its first occurrence |
| `QueryVariants.FieldsLaws` | `internal/rlm/lambda_classify.go:153` | words are what white space separates |
| `Runner.Split` | `internal/rlm/lambda_runner.go:349-364` | exactly kStar child tasks, the i-th with the i-th formulation and the parent's graph demand |
| `Runner.Leaf` | `internal/rlm/lambda_runner.go:202-345` | outcome and calls of a leaf for every oracle, as `NodeAnswers.LeafAnswers` spells them out |
| `Runner.LoadSnippets` | `internal/rlm/lambda_runner.go:263-277` | at most tauStar loads, failed loads counted but not quoted |
| `Runner.DeterministicAnswerSurface` | `internal/rlm/lambda_runner.go:666-700` | merges without the model only if every partial is a trusted surface and every status is certified |
| `Runner.Reduce` | `internal/rlm/lambda_runner.go:367-524` | the merged result and its calls for every operator, as `NodeAnswers.ReduceAnswers` and `NodeAnswers.ReduceReports` spell them out |
| `Runner.Partials.Report` | `internal/rlm/lambda_runner.go:153-163` | the locked section keeps: exactly the finished children have written their own outcome |
| `Runner.MapChildren` | `internal/rlm/lambda_runner.go:132-173` | partials, error count and calls do not depend on the order in which children report |
| `Runner.ExecutePhi` | `internal/rlm/lambda_runner.go:127-194` | terminates with the outcome and the calls of the left-to-right run |
| `NodeAnswers.CandidatesSpec` | `internal/rlm/lambda_runner.go:214-219` | the candidates are the distinct references of the search and the paths they name, or, if they name none, the distinct paths found and those as references |
| `NodeAnswers.LeafAnswers` | `internal/rlm/lambda_runner.go:202-345` | a leaf copies the answer surface exactly if there is one and a required graph is trusted; else it quotes the first tauStar candidates that load, asks the model once, and gives its answer and usage, or the search text if it fails |
| `NodeAnswers.ReduceAnswers` | `internal/rlm/lambda_runner.go:420-465` | certified surfaces are merged without the model; else rerank and synthesize ask once and give the reply, or on failure the non-blank answers in order; the others never ask: cross-confirmed paths before the answers, answers in time order, or the answers |
| `NodeAnswers.ReduceReports` | `internal/rlm/lambda_runner.go:390-417` | evidence, seeds and certificates of all partials, each once; paths named by the answer, else the candidates |
| `PhiTheorems.LeafCount` | `internal/rlm/lambda_runner.go:127-165` | exactly kStar^depth leaves, one when the plan does not split |
| `PhiTheorems.CallBounds` | `internal/rlm/lambda_runner.go:127-194` | searches equal leaves; judgements, loads and reduce calls stay within what the estimate counts |
| `PhiTheorems.MeasureIsSum` | `internal/rlm/lambda_runner.go:390-416` | every additive counter of a node is the sum over its leaves plus what reduce steps add |
| `PhiTheorems.EvidenceIsUniqueOfLeaves` | `internal/rlm/lambda_runner.go:390-417` | deduplicating at every level is deduplicating once at the end |
| `Schedule.StepKeepsSound` | `internal/rlm/lambda_runner.go:137-173` | every step anywhere in the tree keeps the shared slots consistent with the children's own runs |
| `Schedule.StepTakesOne` | `internal/rlm/lambda_runner.go:137-173` | every step takes exactly one unit off a measure: termination under every schedule |
| `Schedule.CanMove` | `internal/rlm/lambda_runner.go:141-166` | a node that has not returned can always move: no deadlock |
| `Schedule.ScheduleIndependence` | `internal/rlm/lambda_runner.go:24-27` | every complete schedule has the same length and returns the outcome and calls of the left-to-right run |
| `Guarantees.TreeTotals` | `internal/rlm/lambda_runner.go:153-193` | a real tree never fails; iterations count the successful searches, subcalls and tokens are sums over leaves plus answered reduce calls |
| `Guarantees.TreeEvidence` | `internal/rlm/lambda_runner.go:390-417` | the root's evidence is the first-occurrence list of the successful leaves' references, left to right |
| `Guarantees.TreeAnswers` | `internal/rlm/lambda_runner.go:132-193` | children get the formulations and the plan one level down; partials are exactly the results of the successful ones, in order; the node answers their reduction or that there are none, and counts the others |
| `Guarantees.InnerChildrenSucceed` | `internal/rlm/lambda_runner.go:153-193` | only a node right above the leaves can miss a child |
| `Guarantees.TreeReduceCalls` | `internal/rlm/lambda_runner.go:424-464` | rerank and synthesize trees: every node above the lowest reduce level asks the model, and no node asks twice |
| `Guarantees.TreeChronology` | `internal/rlm/lambda_runner.go:648-664` | within a run the chronological merge never reorders anything |
| `Guarantees.LeafFailsIffSearchFails` | `internal/rlm/lambda_runner.go:207-210` | the search is the only way for a leaf to fail |
| `Guarantees.EverySchedule` | `internal/rlm/lambda_runner.go:24-27` | for every interleaving: no error, kStar^depth searches, calls within the true estimate, evidence as above |
| `Guarantees.RunLambda` | `internal/rlm/lambda_runner.go:69-86` | executes the planned and capped plan, or one leaf for a single gathered surface; calls made stay within the estimate whenever it is below MaxInt; graph expansions are at most one per leaf |
| `Compose.ComposeUnion` | `internal/rlm/lambda_runner.go:606-614` | the answers that are not blank, in order |
| `Compose.UnionSpec` | `internal/rlm/lambda_runner.go:606-614` | the union joins the answers at exactly the positions whose answer is not blank, in order |
| `Compose.ComposeIntersection` | `internal/rlm/lambda_runner.go:616-646` | the result is independent of the order in which the counting map is walked |
| `Compose.IntersectionSpec` | `internal/rlm/lambda_runner.go:636-646` | a line with the cross-confirmed paths exactly when there are any, then the non-blank answers in order |
| `Compose.SharedPathsSpec` | `internal/rlm/lambda_runner.go:616-634` | a strictly sorted list of exactly the paths in at least two different partials |
| `Compose.SharedPathsIgnoreOrder` | `internal/rlm/lambda_runner.go:616-634` | permuting partials or repeating paths inside one changes nothing |
| `StableSort.SortIsStable` | `internal/rlm/lambda_runner.go:650-656` | sorted by time, and for every instant the same partials in the same order |
| `Compose.ChronologicalSpec` | `internal/rlm/lambda_runner.go:648-664` | the non-blank answers in time order, at equal times in their given order |
| `Text.UniqueStringsRLM` | `internal/rlm/inspect_runner.go:103-118` | the loop computes the deduplicated list |
| `Text.UniqueSpec` | `internal/rlm/inspect_runner.go:103-118` | exactly the trimmed values that are not blank, each once |
| `Text.UniqueOrder` | `internal/rlm/inspect_runner.go:103-118` | in the order of first occurrence |
| `Text.UniqueOfUniques` | `internal/rlm/inspect_runner.go:103-118` | deduplicating parts before the whole changes nothing; idempotence |
| `AuditChain.Verify` | `foxcular/audit/audit.go:130-165` | accepts exactly the lists whose every event passes at its place; a rejection names the first failing event and check |
| `AuditChain.AcceptedIffLinked` | `foxcular/audit/audit.go:136-163` | read off the Data: every event has the hash of its content, names its predecessor's hash and carries its number |
| `AuditChain.PayloadMeaning` | `foxcular/audit/audit.go:84-107` | two payloads are equal exactly when all fields agree, and the values under all but the audit keys print alike, at the same number after the same hash |
| `AuditChain.TamperedAcceptedIffSameContent` | `foxcular/audit/audit.go:150-155` | an accepted list with one event rewritten is accepted exactly when its content stayed the same; else that event is the first to fail, by its hash |
| `AuditChain.RemovedEventBreaksLink` | `foxcular/audit/audit.go:145-148` | after an event is removed, the next one is the first to fail, by its link |
| `AuditChain.SignedPassesIffClean` | `foxcular/audit/audit.go:84-107` | a signed event passes exactly when its Data had no audit keys before |
| `AuditChain.SigningTwiceFails` | `foxcular/audit/audit.go:61-67` | an event signed twice fails with a hash mismatch, whatever keys signed it and whatever key verifies |
| `AuditChain.FinalHashDeterminesList` | `foxcular/audit/audit.go:130-165` | two accepted lists with the same final hash have the same key block, equal length and the same content throughout |
| `MacWitness.WitnessIsGood` | `foxcular/audit/audit.go:103-106` | what these results ask of the MAC is met by a function |
| `AuditChain.AcceptedIffSameKeyBlock` | `foxcular/audit/audit.go:167-171` | a list accepted under one key is accepted under another exactly when HMAC makes the same block of both; otherwise it fails at its first hash |
| `AuditChain.ShortKeysSameBlockIff` | `foxcular/audit/audit.go:104` | keys within a block are the same block exactly when they differ in trailing zero bytes only |
| `AuditChain.LongKeyIsItsDigest` | `foxcular/audit/audit.go:104` | a key longer than a block is the same block as its digest |
| `AuditChain.PaddedKeyIsAccepted` | `foxcular/audit/audit.go:167-171` | concretely: what one key signed, a different key accepts |
| `AuditChain.RearrangedAcceptedIffPrefix` | `foxcular/audit/audit.go:136-163` | dropping, repeating or reordering events is accepted exactly when a prefix is left |
| `AuditChain.ReloadedAcceptedIffEmpty` | `foxcular/audit/audit.go:139` | after a JSON round trip only the empty list is accepted; the first event fails its hash if an integer in its Data is no float, else its sequence number |
| `AuditDrain.AuditDrain.Advance` | `foxcular/audit/audit.go:54-59` | the locked section is the lock step: it hands out the next link |
| `AuditDrain.AuditDrain.Send` | `foxcular/audit/audit.go:50-70` | nil is ignored; any other event is signed in place and offered downstream once, and drain and sink end where a lock step and a deliver or fail step end |
| `AuditDrain.SendIsTwoSteps` | `foxcular/audit/audit.go:50-70` | a send is two steps of the state machine and leaves nothing of its own in flight |
| `AuditDrain.SendExtendsChain` | `foxcular/audit/audit.go:50-70` | sends that do not interleave sign the next event of the chain and keep the invariant |
| `AuditDrain.SignAllAcceptedIffClean` | `foxcular/audit/audit.go:50-165` | sign-then-verify round trip: the whole chain is accepted exactly when no original carried audit keys |
| `AuditDrain.RunIsChained` | `foxcular/audit/audit.go:50-70` | in every reachable state the handed-out events form one chain 1..n, split among in flight, delivered and failed |
| `AuditDrain.HandedOutOnce` | `foxcular/audit/audit.go:50-70` | no event is in two of the three places |
| `AuditDrain.SinkAcceptedIff` | `foxcular/audit/audit.go:130-165` | the sink's list is accepted exactly when it is the beginning of the chain in order, of clean events |
| `AuditDrain.FailureBreaksChain` | `foxcular/audit/audit.go:69` | after a failed delivery no sink list that reaches its number is accepted |
| `Reexports.ResolveOrigin` | `scripts/check-frontend-dead-exports.ts:297-316` | the recursion over the shared set terminates and computes the search |
| `Reexports.SharedMatchesPath` | `scripts/check-frontend-dead-exports.ts:297-316` | sharing the visited set between branches changes no result |
| `Reexports.PathSearchMeaning` | `scripts/check-frontend-dead-exports.ts:307-316` | an exporter is found exactly when one can be reached over the star map without meeting the path; it is the end of the leftmost way: at each file the first entry, in list order, from which one can be reached without coming back |
| `Reexports.LeftmostIsUnique` | `scripts/check-frontend-dead-exports.ts:307-316` | there is only one leftmost way |
| `Reexports.FreshSearch` | `scripts/check-frontend-dead-exports.ts:297-316` | the search with the shared set finds what the one with a set per path finds: null exactly when no reachable file exports the name, else the end of the leftmost way |
| `Reexports.ResolveOriginFresh` | `scripts/check-frontend-dead-exports.ts:364-366` | the same for the call without a visited set |
| `Reexports.UseMap.RecordUse` | `scripts/check-frontend-dead-exports.ts:318-332` | each key lists the sites of its calls from other files, each once, in order |
| `Reexports.SitesInOrder` | `scripts/check-frontend-dead-exports.ts:326-330` | the sites stand in the order of their first calls |
| `Reexports.UseMap.IsDead` | `scripts/check-frontend-dead-exports.ts:430-438` | an export has no entry exactly when no use from another file was recorded under its key |
| `Reexports.DeadIffUnusedAndUnshadowed` | `scripts/check-frontend-dead-exports.ts:430-438` | it is reported exactly when no other file uses it and no used export shares its key, which needs the separator in a path and in a name |
| `Reexports.UnusedButNotDead` | `scripts/check-frontend-dead-exports.ts:325` | concretely: an unused export that is not reported |
| `EventTree.DeepCopyMap` | `foxcular/event.go:126-135` | a tree of fresh objects with the same data, even when the source shares objects |
| `EventTree.DeepCopySlice` | `foxcular/event.go:137-147` | the same for slices |
| `EventTree.TreeIsReadOffHeap` | `foxcular/event.go:126-161` | the tree that stands for the data is what following keys and indices through the heap finds, place by place |
| `EventTree.Clone` | `foxcular/event.go:98-106` | nil for nil; otherwise a fresh event over a deep copy, the original unwritten |
| `Redaction.IsSensitiveKey` | `foxcular/redact.go:183-195` | some configured pattern occurs in the key, both in lower case |
| `Redaction.SensitiveIgnoresCase` | `foxcular/redact.go:183-195` | that is, letter by letter, ignoring case |
| `Redaction.RedactMap` | `foxcular/redact.go:126-144` | the in-place rewrite yields the redacted data and writes only the objects of its own tree |
| `Redaction.RedactSlice` | `foxcular/redact.go:146-167` | a new slice with the redacted items |
| `Redaction.RedactEvent` | `foxcular/redact.go:103-124` | nothing that existed before is written; the result is a separate tree of fresh objects holding the redacted data, its two texts scrubbed |
| `Redaction.RedactedDataAtEveryPlace` | `foxcular/redact.go:103-167` | from the root, place by place: the same places, the mask for a string directly under a sensitive key, any other string scrubbed unless empty, other values, keys and lengths kept, nil Data nil |
| `Redaction.RedactedAtEveryPlace` | `foxcular/redact.go:126-167` | the same below any key or slice item |
| `Redaction.MaskedIffString` | `foxcular/redact.go:14-16` | the value of a sensitive key is masked only if it is a string |
| `EvidenceToken.AnswerContainsEvidenceToken` | `internal/rlm/evidence_refs.go:149-169` | the loop computes the verdict of the skipping search |
| `EvidenceToken.ContainsTokenMeaning` | `internal/rlm/evidence_refs.go:149-169` | a positive verdict is always sound; complete for skip-safe tokens |
| `EvidenceToken.DelimitedIff` | `internal/rlm/evidence_refs.go:162-165` | delimited means: the answer reads before, token, after, and neither neighbour goes on with a reference byte, a sentence's full stop excepted |
| `EvidenceToken.TokenByteIff` | `internal/rlm/evidence_refs.go:177-188` | the reference bytes by their codes |
| `EvidenceToken.MentionsIff` | `internal/rlm/evidence_refs.go:136-147` | a reference is mentioned as a whole, or, for a path or a note, by what follows its first colon |
| `EvidenceToken.ScanDecidesIffSkipSafe` | `internal/rlm/evidence_refs.go:154-168` | the search is right in every text exactly for the skip-safe tokens |
| `EvidenceToken.TokenBytesAreSkipSafe` | `internal/rlm/evidence_refs.go:177-188` | tokens of token bytes, the last one excepted, are skip-safe |
| `EvidenceToken.CommaTokenIsMissed` | `internal/rlm/evidence_refs.go:154-168` | a concrete token and text where a delimited occurrence is missed |
| `EvidenceToken.CollectAnswerUsedEvidenceRefs` | `internal/rlm/evidence_refs.go:116-134` | a strictly sorted list of exactly the mentioned candidates |
| `Sanitizer.StripDelimitedBlocks` | `internal/rlm/output_sanitize.go:89-102` | the loop terminates with the stripped text |
| `Sanitizer.StripRemovesEveryOpen` | `internal/rlm/output_sanitize.go:89-102` | no open marker is left, joined ones included |
| `Sanitizer.StripIsSubsequence` | `internal/rlm/output_sanitize.go:89-102` | characters are only removed, never added or moved |
| `Sanitizer.StripFixpointIffNoOpen` | `internal/rlm/output_sanitize.go:89-102` | a text is unchanged exactly when it has no open marker; idempotence |
| `Sanitizer.StripCutsBlock` | `internal/rlm/output_sanitize.go:99-100` | a delimited block is cut out whole, whatever surrounds it |
| `Sanitizer.StripUnclosed` | `internal/rlm/output_sanitize.go:95-98` | a block that is not closed takes the rest of the text with it, and what stands before it is trimmed |
| `IdleThrottle.IdleActions.Start` | `configs/opencode-hooks/index.ts:344-352` | admitted exactly when the history of calls says so; the object stays the replay of its history |
| `IdleThrottle.StartsIffDue` | `configs/opencode-hooks/index.ts:344-352` | a call starts exactly when its interval is positive, the last start of its key has ended, and the interval has passed since that start, or since time zero without one |
| `IdleThrottle.IdleActions.End` | `configs/opencode-hooks/index.ts:355-357` | the key is released whether the action succeeded or not; the object stays the replay of its history |
| `IdleThrottle.NoOverlap` | `configs/opencode-hooks/index.ts:345-356` | between two starts of a key the first action ends |
| `IdleThrottle.StartsAreSpaced` | `configs/opencode-hooks/index.ts:346-351` | every start lies at least its interval after every earlier start, for any clock |
| `IdleThrottle.WindowBound` | `configs/opencode-hooks/index.ts:339-359` | at most (b - a) / interval + 1 starts in a window |
| `Correlation.WithinLimit` | `internal/console/correlation.go:66-83` | pending never exceeds the limit, after any history |
| `Correlation.PendingIsHistory` | `internal/console/correlation.go:66-108` | an id is pending exactly when a creation of it stands; its entry has all chunks since, in order, and is cancelled iff a cancel came since |
| `Correlation.CorrelationTracker.NewCorrelation` | `internal/console/correlation.go:66-83` | refused exactly at the limit, otherwise a new entry; the tracker stays the replay of its history, within its limit |
| `Correlation.CorrelationTracker.AppendStreamed` | `internal/console/correlation.go:101-108` | the chunk is appended to a pending entry, otherwise nothing changes; the tracker stays the replay of its history |
| `Correlation.CorrelationTracker.GetActive` | `internal/console/correlation.go:125-137` | none exactly when nothing is pending; otherwise an entry with no earlier start time |
| `Correlation.CorrelationTracker.ListPending` | `internal/console/correlation.go:140-149` | every entry exactly once |

## Left out

- Real tool and model calls, JSON encoding, prompt texts and the answer-path expressions of `internal/rlm`: parameters of the model.
- The classifier call, its tokens, and the ephemeral-helper mode of `LambdaRunner.Run`; the estimate does not cover the classifier either.
- Metadata that no later step reads (selected paths, path sets, context-graph counters, sanitization records): the same union and sum pattern as the modelled entries.
- The order of references inside one leaf, which depends on Go map iteration: part of the leaf's arbitrary search result.
- Rounding of floating-point square roots, logarithms and powers, the conversion of square roots beyond the int range, and the reported cost estimate.
- `SanitizeOutputText` as a whole: its later marker removals can assemble a new marker, so it has no marker-free guarantee.
- `extractSymbolTokens` and `filterStopWords`: arbitrary string functions of the formulator.
- HMAC and SHA-256 collisions, canonical JSON and marshalling errors, and the replacement of text that is not UTF-8.
- AuditChain.ReloadedAcceptedIffEmpty: rounding on reload is an arbitrary function, but numbers inside nested values are taken to survive it.
- AuditDrain.AuditDrain.Send: one event object per send; sending the same object again (which also rewrites the earlier delivery) is covered only as `SigningTwiceFails` on values, and wrap-around of the 64-bit sequence number is not modelled.
- Redaction value patterns: one arbitrary string function.
- Text.UniqueSpec: white space is the ASCII white space and a character is a byte; Unicode white space and lower-casing outside ASCII are not modelled.
- EventTree.DeepCopyMap: requires acyclic source data, on which alone the recursion ends; the slice header's capacity is not modelled.
- Compose.SharedPathsIgnoreOrder: the answer texts after the path list follow the order of the partials, so only the list is order-free.
- Sanitizer.StripDelimitedBlocks: requires a delimiter that is not empty; with both empty the loop does not end.
- Reexports: parsing TypeScript, module resolution and the walk over source files; the graph is the input.
- Sinks, HTTP, TUI, mail, the Casbin wrapper, protocol validation and the editor integrations: I/O plumbing or single-branch checks.
