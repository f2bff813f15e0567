# Ostrom's decision logic, modelled and proved

Ostrom decides what unattended agents may work on. The decisions rest on a few small
algorithms: a dependency graph built from several surfaces, an order of milestones, a
ranking of queued work, an append-only journal of check receipts, a supervisor that
starts at most one worker for each loop, a content-addressed store of policy versions,
and a static check on what may flow into an operation's actions. This project models
them in Dafny, module by module, and proves what they are for.

| Module | Part of Ostrom |
|---|---|
| `Digraph` | walks and cycles, shared by the three graph searches |
| `WorkGraph` | the merged dependency graph, its cycles, dispatchability and unblocking power |
| `EvidenceGraph` | the three-colour search over citations between checks |
| `Milestones`, `Ranking`, `Order` | the order of open milestones, the next one, and the order of dispatch |
| `Canonical`, `Sha256` | the canonical form that is digested, and the digest |
| `Receipts`, `Judgment` | receipts, staleness, and the freshness bound recorded with a citation |
| `LoopSupervisor`, `Reconciler` | the supervisor as a transition system, and as an object that rewrites its records |
| `PolicyVersion` | composed versions, the two pointers, and every crash point between |
| `IncludeGlob` | the glob that selects included policy files |
| `Values`, `Operations`, `Flags` | authored values, the static flow check, the later substitution, and the flags of an invocation |
| `BranchListing`, `RunCaps` | the paged branch listing, and durations with their printed form |
| `Wrappers`, `Text` | options, results and small facts about sequences and text |

Code that mutates is a method with a loop or a class (`Reconciler.Supervisor`,
`PolicyVersion.Store`), proved equal to or against a specification; the specification
then has lemmas over every input, every run or every crash point. A set that the source
passes by mutable reference is an in-and-out value of the method.

Five promises do not hold of the code as it stands. Each is stated with the exact condition
under which it does:

- At most one live registered worker for each loop, named by the loop's record, holds throughout
  a run exactly when no worker starts while another registered worker of its loop is live
  (`LoopSupervisor.RunSingleExactly`). Nothing in the code prevents that start, since a spawned
  worker's identity is unknown until it registers; `PidWindowAllowsTwoWorkers` is such a run.
  That each worker registers or exits before its loop's record is written again is enough
  (`HandshakeSuffices`) and not needed (`HandshakeIsNotNecessary`). A launch at most once for
  each slot needs no condition on workers.
- A record that skipped a slot keeps a status that may be alive after its worker has
  finished and its identity is gone. Once the policy changes, every reconciliation fails
  on that record (`Reconciler.RecordsCanBecomeWedged`,
  `Reconciler.WedgedRecordStopsReconciliation`). The stop pass gets through exactly when
  every obsolete record names a process that ends (`Reconciler.StopPassSucceedsExactly`).
- The static flow check does not look behind YAML tags and the substitution does. A command
  parameter depends on markdown exactly when a reference to markdown stands behind a tag
  (`Operations.MarkdownDecidesExactlyBehindTags`; mapping keys have to be plain), and a parameter that callers may not supply stays
  as authored exactly when each tagged part is bound to itself, so never for a tagged value unless
  a default carries the tag (`Operations.AuthoredParameterStaysExactly`).
- The order of milestones does not depend on how they were listed exactly when at most one of them
  is on a cycle or waits for one (`Milestones.ListingIrrelevantExactly`); two that block each other
  are the least case in which it does (`Milestones.CyclesExposeInputOrder`).
- Evidence is refused when its newest verdict is stale, but the citation is of the newest attempt. It is
  stale at once exactly when that attempt has run out or rests on stale evidence
  (`Judgment.NewCitationStaleExactly`, with `Judgment.LateAttemptIsStaleAtOnce` as the case); it is not
  when the newest attempt is also the newest verdict.

Two details may surprise a reader, and the model keeps them: `**/` in a glob steps over its
slash without requiring one, and a branch listing may be answered from a page after the
short one, which nothing has checked. The answer depends on the checked pages alone exactly when
the name occurs on one of them (`BranchListing.CheckedPagesDecideExactly`).

## Model

| member | source | states |
|---|---|---|
| `WorkGraph.BuildWorkGraph` | crates/ostrom-core/src/work_graph.rs:68-206 | the nodes are the observed items, and each shows, in terms of the inputs alone, whether it is open, what it depends on, what holds it back, its children, whether it is dispatchable, and how many nodes wait for it alone |
| `WorkGraph.DispatchableExactly` | crates/ostrom-core/src/work_graph.rs:142-179 | an item is dispatchable exactly when some input shows it open, none states a child, and each stated dependency is closed in every input for it or, when unobserved, in a configured repository |
| `WorkGraph.GraphShowsInputs` | crates/ostrom-core/src/work_graph.rs:117-206 | nodes, edges and sources are exactly those the inputs state |
| `WorkGraph.HeldBack` | crates/ostrom-core/src/work_graph.rs:82-114 | an open body dependency, an open pull request that closes the item, and any child each hold it back; an item depends on itself only by its own body |
| `WorkGraph.OpenEdgesFromInputs` | crates/ostrom-core/src/work_graph.rs:131-135 | the searched edges are the stated dependencies between items shown open |
| `WorkGraph.MergeInputs` | crates/ostrom-core/src/work_graph.rs:72-115 | a node is open when some input for it is, and an edge, source or child is recorded exactly when some input states it |
| `WorkGraph.ReadInput` | crates/ostrom-core/src/work_graph.rs:93-114 | one input adds exactly the edges and children it states; a self edge only from a body |
| `WorkGraph.MergeIsUnique` | crates/ostrom-core/src/work_graph.rs:72-115 | what a set of inputs states determines all three maps |
| `WorkGraph.InputOrderIsIrrelevant` | crates/ostrom-core/src/work_graph.rs:62-71 | reordered or repeated inputs give the same graph |
| `WorkGraph.Reaches` | crates/ostrom-core/src/work_graph.rs:212-229 | terminates; `true` has a walk as witness, and after `false` the newly visited nodes lead nowhere unvisited and not to the target, although all branches share one visited set |
| `WorkGraph.ReachesItself` | crates/ostrom-core/src/work_graph.rs:136-138 | started with nothing visited, the search answers exactly whether the start lies on a cycle |
| `WorkGraph.FindCycleNodes` | crates/ostrom-core/src/work_graph.rs:126-140 | finds exactly the open nodes on cycles of open edges |
| `WorkGraph.FaultNamesTheCycles` | crates/ostrom-core/src/work_graph.rs:197-204 | the `dependency_cycle` fault lists exactly the nodes on cycles and is absent exactly when there is none |
| `WorkGraph.RepositoryOf` | crates/ostrom-core/src/work_graph.rs:208-210 | the text before the last `#`, and nothing exactly when there is no `#` |
| `WorkGraph.CycleTestIsImplied` | crates/ostrom-core/src/work_graph.rs:169-172 | an open node with no unsatisfied dependency is on no cycle, so the cycle test never decides dispatchability |
| `WorkGraph.SomethingIsDispatchable` | crates/ostrom-core/src/work_graph.rs:126-179 | progress: with no fault and an open node some node is dispatchable, when absent dependencies are in configured repositories and children are open nodes |
| `WorkGraph.StuckNodesFormACycle` | crates/ostrom-core/src/work_graph.rs:126-179 | under the same conditions, if nothing is dispatchable the open nodes have a cycle |
| `WorkGraph.CloseChangesOneNode` | crates/ostrom-core/src/work_graph.rs:72-115 | closing an item changes its own state and no edge and no child |
| `WorkGraph.ClosingKeepsOthersDispatchable` | crates/ostrom-core/src/work_graph.rs:142-179 | closing one node never makes another dispatchable node undispatchable |
| `WorkGraph.PowersSumToHeldNodes` | crates/ostrom-core/src/work_graph.rs:181-190 | unblocking powers sum to the number of nodes whose only unsatisfied dependency is itself a node |
| `EvidenceGraph.AgentEvidence` | crates/ostrom-core/src/check.rs:145-176 | yields the authored names exactly when there are some, none blank and none repeated, after a valid prelude; citing nothing is a fault of its own |
| `EvidenceGraph.Visit` | crates/ostrom-core/src/check.rs:227-262 | on success the path set is restored and finished nodes are sound, off every cycle and closed under citation; every error has a witness |
| `EvidenceGraph.ValidateEvidenceCycles` | crates/ostrom-core/src/check.rs:223-276 | accepts exactly when parameters decode, references resolve in strict mode, and the local citations are acyclic |
| `EvidenceGraph.JustifiedIsUnacceptable` | crates/ostrom-core/src/check.rs:223-276 | each reported fault rules acceptance out: a cycle or self-reference error is never spurious |
| `EvidenceGraph.ReturningPathIsRefused` | crates/ostrom-core/src/check.rs:241-258 | authored citations that lead back to their start are refused |
| `EvidenceGraph.LayeredIsAccepted` | crates/ostrom-core/src/check.rs:223-276 | well authored definitions whose citations all go down some numbering are accepted |
| `EvidenceGraph.RefusedWhenMalformed` | crates/ostrom-core/src/check.rs:237-250 | an agent without valid, distinct, non-blank citations is refused, and in strict mode a citation of nothing |
| `EvidenceGraph.Compose` | crates/ostrom-core/src/check.rs:196-206 | the union of the catalogues, and exactly the names that two of them define |
| `EvidenceGraph.ComposedIsLast` | crates/ostrom-core/src/check.rs:199-206 | of several definitions of a name the last catalogue's stands |
| `EvidenceGraph.ValidateCatalogues` | crates/ostrom-core/src/check.rs:196-221 | accepts exactly the acyclic resolved unions in which no citation names a check defined twice |
| `Milestones.Choose` | crates/ostrom-core/src/plan.rs:412-424 | picks the first of the least eligible milestones, or the first of all when none is eligible |
| `Milestones.OrderMilestones` | crates/ostrom-core/src/plan.rs:409-426 | the loop computes the greedy order the lemmas are about |
| `Milestones.OrderIsPermutation` | crates/ostrom-core/src/plan.rs:409-426 | every open milestone is placed exactly once, cycles or not |
| `Milestones.StepsAreGreedy` | crates/ostrom-core/src/plan.rs:411-425 | at every position stands a least eligible one of what is left, if any is eligible |
| `Milestones.AcyclicMilestoneFollowsItsBlockers` | crates/ostrom-core/src/plan.rs:411-425 | with cycles elsewhere, a milestone with an acyclic dependency closure still stands after every open milestone it is blocked by |
| `Milestones.AcyclicOrderIsTopological` | crates/ostrom-core/src/plan.rs:409-426 | without cycles the order is topological |
| `Milestones.OrderIsLeast` | crates/ostrom-core/src/plan.rs:412-424 | where it first differs from any other topological order it has the older milestone |
| `Milestones.ListingIrrelevantExactly` | crates/ostrom-core/src/plan.rs:409-426 | every listing gives the same order if and only if at most one milestone is on a cycle or waits for one |
| `Milestones.FallbackTakesFirst` | crates/ostrom-core/src/plan.rs:420-424 | once nothing is eligible, the fallback takes the first listed of what is left |
| `Milestones.EligiblePrefixIsAcyclic` | crates/ostrom-core/src/plan.rs:411-425 | until the fallback is first used, only milestones that reach no cycle are placed |
| `Milestones.CyclesExposeInputOrder` | crates/ostrom-core/src/plan.rs:420-424 | the least case in which the listing decides: two milestones that block each other |
| `Milestones.NextMilestone` | crates/ostrom-core/src/plan.rs:439-451 | the first unblocked milestone of the order, or none when all are blocked |
| `Milestones.FirstUnblockedIsLeast` | crates/ostrom-core/src/plan.rs:439-451 | the first unblocked one in the order has the least key of all unblocked ones |
| `Milestones.NextOf` | crates/ostrom-core/src/plan.rs:409-451 | `next` is the oldest open milestone that waits for no open one, and absent exactly when each waits for one, whatever the cycles |
| `Order.LessExactly` | crates/ostrom-core/src/plan.rs:412-419 | strings compare by the first character in which they differ, a prefix first |
| `Order.KeyOrderExactly` | crates/ostrom-core/src/plan.rs:412-419 | the earlier date comes first, and on one date the smaller identifier |
| `Ranking.ComposeRanking` | crates/ostrom-core/src/plan.rs:691-738 | with unique ids the authorized items, in order: first those not demoted, then by the first place in the principal and then computed list, then by power, then by age |
| `Ranking.RankExactly` | crates/ostrom-core/src/plan.rs:702-737 | the rank of one item is below another's exactly when those rules put it first |
| `Ranking.AssembleRanking` | crates/ostrom-core/src/plan.rs:691-738 | the pushing loop and the two sorted parts give the ranking the lemmas are about |
| `Ranking.HeadFacts` | crates/ostrom-core/src/plan.rs:702-711 | the leading ids are exactly the ranked, allowed, not demoted ones, each once and in ranked order |
| `Ranking.SortSorts` | crates/ostrom-core/src/plan.rs:713-737 | sorting by a rank orders by it and keeps every item |
| `Ranking.ComposedIsRanked` | crates/ostrom-core/src/plan.rs:691-738 | with unique ids the result lists exactly the dispatchable items in strictly increasing composite rank: principal order, computed order, the remainder by power and age, demoted last |
| `Ranking.ComposedIsPermutation` | crates/ostrom-core/src/plan.rs:691-738 | the result holds each dispatchable id exactly once and nothing else |
| `Ranking.MechanicalIsRanked` | crates/ostrom-core/src/plan.rs:743-765 | the mechanical ranking is the same strict order with nothing computed or demoted |
| `Ranking.ComposedEqualsMechanical` | crates/ostrom-core/src/plan.rs:691-765 | without computed or demoted entries the two rankings are equal |
| `Ranking.StrictOrderIsUnique` | crates/ostrom-core/src/plan.rs:691-765 | there is only one such order of the items |
| `Canonical.Canonicalize` | crates/ostrom-core/src/check.rs:417-431 | the recursive rewriting computes the canonical form |
| `Canonical.CanonicalDecidesSame` | crates/ostrom-core/src/check.rs:417-431 | two values have one canonical form exactly when they differ in the order of object members only |
| `Canonical.CanonicalIsOrdered` | crates/ostrom-core/src/check.rs:417-431 | the keys of every object at every level are increasing, and the value says the same as before |
| `Canonical.CanonicalIsIdempotent` | crates/ostrom-core/src/check.rs:417-431 | canonicalizing again changes nothing |
| `Sha256.PadMessage` | crates/ostrom-core/src/check.rs:1074-1080 | the padding loop appends exactly the padding of section 5.1.1 of FIPS 180-4 |
| `Sha256.PaddedShape` | crates/ostrom-core/src/check.rs:1074-1080 | the message, the byte 0x80, zero bytes, and the number of bits modulo 2^64 in the last eight bytes |
| `Sha256.PaddedLength` | crates/ostrom-core/src/check.rs:1074-1080 | the padded length is the least multiple of 64 bytes with room for the bit and the length |
| `Sha256.PaddingIsInjective` | crates/ostrom-core/src/check.rs:1074-1080 | different messages have different paddings, also where the 64-bit bit count wraps |
| `Sha256.FromBytesIsValue` | crates/ostrom-core/src/check.rs:1085-1087 | four bytes are read as one number, the most significant first |
| `Sha256.UpperRotationsAreShifts` | crates/ostrom-core/src/check.rs:1103-1113 | the round functions are the rotations of section 3.2 of FIPS 180-4 written as shifts |
| `Sha256.LowerRotationsAreShifts` | crates/ostrom-core/src/check.rs:1089-1094 | so are the schedule functions |
| `Sha256.MajorityTakesTwo` | crates/ostrom-core/src/check.rs:1114 | each bit of a majority is one that two of the three words have |
| `Sha256.ChoiceTakesFirst` | crates/ostrom-core/src/check.rs:1104 | where the first word has a one the choice has the bit of the second |
| `Sha256.ChoiceTakesSecond` | crates/ostrom-core/src/check.rs:1104 | where it has a zero, the bit of the third |
| `Sha256.Schedule` | crates/ostrom-core/src/check.rs:1084-1099 | the buffer filled in place is the message schedule of section 6.2.2, though its terms are added in the opposite order |
| `Sha256.Compress` | crates/ostrom-core/src/check.rs:1101-1121 | 64 rounds of shifting eight variables give the registers of the recursive definition |
| `Sha256.HashBlocks` | crates/ostrom-core/src/check.rs:1082-1125 | the loop over blocks gives the hash value of the whole message |
| `Sha256.Sha256Hex` | crates/ostrom-core/src/check.rs:1056-1127 | the digest is the printed hash value of the padded message |
| `Sha256.RenderIsInjective` | crates/ostrom-core/src/check.rs:1126 | printing loses nothing: equal texts only for equal hash values |
| `Sha256.HexShowsBytes` | crates/ostrom-core/src/check.rs:1126 | each byte is printed as its two hexadecimal digits, the high one first |
| `Sha256.Render` | crates/ostrom-cli/src/policy_version.rs:552-557 | a printed digest is 64 lower-case hexadecimal digits, what the version store requires of a digest |
| `Receipts.Validate` | crates/ostrom-core/src/check.rs:671-731 | accepts exactly well-formed receipts, and tells a reason that cites nothing shown apart from every other fault |
| `Receipts.ValidReceiptIsIdentified` | crates/ostrom-core/src/check.rs:677-704 | a valid receipt names check, attempt and producer, and has either a verdict or an error |
| `Receipts.ValidJudgmentIsGrounded` | crates/ostrom-core/src/check.rs:705-729 | reasons are given exactly by a judge who decides, in words, each about exactly one piece of the evidence |
| `Receipts.Latest` | crates/ostrom-core/src/check.rs:961-993 | among the selected receipts one with the greatest time, and none exactly when nothing is selected |
| `Receipts.EvidenceIsStale` | crates/ostrom-core/src/check.rs:1024-1052 | the walk with one mutable path set terminates and equals the recursive definition; `false` leaves the set as it was |
| `Receipts.StaleExactlyOnBadChain` | crates/ostrom-core/src/check.rs:1024-1052 | evidence is stale exactly when some citation chain ends expired, missing or digest-mismatched, or repeats a name |
| `Receipts.EvaluateState` | crates/ostrom-core/src/check.rs:954-1021 | the state is what the newest counted verdict says, or stale exactly when that has run out or has lost its grounds, or never-run without one; the fault is that of the newest attempt |
| `Receipts.StateExactly` | crates/ostrom-core/src/check.rs:983-1019 | passing, failing, inconclusive and stale, each with its exact condition on the newest verdict, the clock and the citation chains |
| `Receipts.FaultExactly` | crates/ostrom-core/src/check.rs:961-981 | the fault names a definition mismatch, a malformed receipt or the recorded error of the newest attempt, in that order |
| `Receipts.AppendedVerdictShows` | crates/ostrom-core/src/check.rs:983-1019 | a newest verdict appended to any journal shows at once and until it runs out, for a mechanical check |
| `Receipts.MechanicalEvidenceExactly` | crates/ostrom-core/src/check.rs:1030-1050 | evidence of a mechanical check is stale exactly when it is not the newest attempt or its bound is absent or passed |
| `Receipts.StaleStaysStale` | crates/ostrom-core/src/check.rs:995-1006 | for a fixed journal, stale now is stale at every later time |
| `Receipts.ErrorKeepsMechanicalState` | crates/ostrom-core/src/check.rs:983-1019 | an error receipt never changes the state of a mechanical check |
| `Receipts.AppendedIsLatest` | crates/ostrom-core/src/check.rs:1036-1042 | of equal completion times the receipt later in the journal is the latest |
| `Receipts.RerunMakesCitingJudgmentStale` | crates/ostrom-core/src/check.rs:1024-1052 | a newer run with another digest, of a check cited directly or transitively, makes the citing judgment stale |
| `Judgment.LeastBound` | crates/ostrom-checks/src/judgment.rs:133-142 | the bound of a citation is the least of its own and all recorded ones |
| `Judgment.Prepare` | crates/ostrom-checks/src/judgment.rs:101-171 | succeeds exactly when every reference can be cited, item by item in order, and then the newest verdict of each still holds; otherwise reports the first refusal |
| `Judgment.CitedExactly` | crates/ostrom-checks/src/judgment.rs:104-142 | a check can be cited exactly when it is selected, its newest attempt is a valid verdict of its present definition, and its newest verdict still holds |
| `Judgment.RefusedAsStaleExactly` | crates/ostrom-checks/src/judgment.rs:114-116 | `evidence_stale` is the answer exactly when there is an attempt and the newest verdict no longer holds |
| `Judgment.CitationExactly` | crates/ostrom-checks/src/judgment.rs:127-165 | the citation is of the newest attempt, and its bound has passed exactly when that of the attempt or a recorded bound behind it has |
| `Judgment.NewCitationStaleExactly` | crates/ostrom-checks/src/judgment.rs:104-160 | a new citation is stale exactly when the cited attempt has run out or some of its evidence is stale |
| `Judgment.NewCitationIsNotStale` | crates/ostrom-checks/src/judgment.rs:104-160 | so it is not stale when the newest attempt is also the newest verdict |
| `Judgment.LateAttemptIsStaleAtOnce` | crates/ostrom-checks/src/judgment.rs:108-116 | a passing check whose late attempt has run out is cited by a citation that is stale at once |
| `Judgment.ExecutedRecords` | crates/ostrom-checks/src/judgment.rs:207-242 | the receipt carries the judge's verdict and reasons, the evidence shown and the check's own stamp; a failed judge leaves an inconclusive verdict without reasons |
| `Judgment.OutsideReasonIsRefused` | crates/ostrom-core/src/check.rs:721-727 | a reason that names nothing the judge was shown refuses the receipt |
| `Judgment.FailedJudgeIsRecorded` | crates/ostrom-core/src/check.rs:868-888 | a failed judge is recorded whenever check, producer, judge and evidence are named |
| `Judgment.Record` | crates/ostrom-checks/src/judgment.rs:207-242 | appends exactly the executed receipt when every reference can be cited and the receipt is well formed, and nothing otherwise; whatever was recorded in between, the journal stays one of prepared judgments |
| `Judgment.MatchedChainDescends` | crates/ostrom-checks/src/judgment.rs:104-160 | along matching citations receipts are strictly earlier and bounds never fall below the first |
| `Judgment.DescendingNames` | crates/ostrom-core/src/check.rs:1030-1035 | so no name repeats on such a path |
| `Judgment.CachedBoundAgrees` | crates/ostrom-core/src/check.rs:1024-1052 | in a journal of prepared judgments a citation is stale exactly when its own bound has passed or some citation behind it no longer matches |
| `LoopSupervisor.LaunchesExactly` | crates/ostrom-cli/src/loop_supervisor.rs:226-369 | a worker is launched exactly when a slot is due that is not over or too old, no worker of the loop runs, the loop is within its ceilings and admitted, and log and spawn succeed |
| `LoopSupervisor.RecordsExactly` | crates/ostrom-cli/src/loop_supervisor.rs:251-369 | each refusal is recorded under its own status, the first that applies, and nothing else is written |
| `LoopSupervisor.OutcomesExactly` | crates/ostrom-cli/src/loop_supervisor.rs:226-369 | each outcome is reported exactly in its case, and a loop without a due slot is left alone |
| `LoopSupervisor.HeldIsTriedAgain` | crates/ostrom-cli/src/loop_supervisor.rs:74-79 | an attempt held by admission is launched at the same slot once it is admitted |
| `LoopSupervisor.StopsExactly` | crates/ostrom-cli/src/loop_supervisor.rs:544-594 | exactly the possibly live records of another version or an undeclared loop are stopped, by their identity and with a confirmed termination |
| `LoopSupervisor.RegistersExactly` | crates/ostrom-cli/src/loop_supervisor.rs:482-512 | a worker registers exactly when the policy loads and is its own, the loop is declared and the record is for its slot |
| `LoopSupervisor.FinishesExactly` | crates/ostrom-cli/src/loop_supervisor.rs:514-542 | a finished worker's record names nobody and says how it ended, except for a skipped slot |
| `LoopSupervisor.EveryLaunchIsJustified` | crates/ostrom-cli/src/loop_supervisor.rs:195-369 | in every run each launch was made by a reconciliation that met all those conditions |
| `LoopSupervisor.StepKeepsSingleExactly` | crates/ostrom-cli/src/loop_supervisor.rs:226-651 | a step keeps one live registered worker per loop, named by a record that may be alive, if and only if it is not the start of a worker beside another registered one |
| `LoopSupervisor.RunSingleExactly` | crates/ostrom-cli/src/loop_supervisor.rs:195-651 | over every run that promise holds throughout exactly when no worker starts beside another registered one |
| `LoopSupervisor.HandshakeSuffices` | crates/ostrom-cli/src/loop_supervisor.rs:482-512 | if each spawned worker registers or exits before its loop's record is written again, the promise holds throughout |
| `LoopSupervisor.HandshakeIsNotNecessary` | crates/ostrom-cli/src/loop_supervisor.rs:301-324 | a stale slot may overwrite the record of an unregistered worker, which is then refused, and the promise still holds |
| `LoopSupervisor.StepKeepsConsistencyExactly` | crates/ostrom-cli/src/loop_supervisor.rs:596-651 | the records agree also with unregistered workers until, and only until, a reconciliation overwrites the record of one |
| `LoopSupervisor.SingleWorker` | crates/ostrom-cli/src/loop_supervisor.rs:482-512 | in every run with the handshake a live registered worker is the only one of its loop, and the record carries its identity with a status that may be alive |
| `LoopSupervisor.PidWindowAllowsTwoWorkers` | crates/ostrom-cli/src/main.rs:1450-1471 | without the handshake a run reaches two live workers of one loop |
| `LoopSupervisor.PassedStays` | crates/ostrom-cli/src/loop_supervisor.rs:237-250 | a settled slot stays settled in every step of worker, crash or reconciliation |
| `LoopSupervisor.LaunchPasses` | crates/ostrom-cli/src/loop_supervisor.rs:596-651 | launching settles the slot that came due, which was not settled before |
| `LoopSupervisor.PassedIsNeverLaunched` | crates/ostrom-cli/src/loop_supervisor.rs:74-79 | a slot launched, skipped, stale or stopped is never launched later; only inconclusive and held ones are retried |
| `LoopSupervisor.EachSlotLaunchedOnce` | crates/ostrom-cli/src/loop_supervisor.rs:226-369 | while the policy stays and slots advance, each slot of a loop is launched at most once under every interleaving |
| `Reconciler.Supervisor.constructor` | crates/ostrom-cli/src/loop_supervisor.rs:195-212 | starts with no record and no worker |
| `Reconciler.Supervisor.StopOne` | crates/ostrom-cli/src/loop_supervisor.rs:544-594 | the new records are those of the stop step; an obsolete worker is ended and its identity cleared, or the pass fails |
| `Reconciler.Supervisor.ReconcileOne` | crates/ostrom-cli/src/loop_supervisor.rs:226-369 | rewriting the record in place is exactly the reconcile step, with its outcome |
| `Reconciler.Supervisor.Launch` | crates/ostrom-cli/src/loop_supervisor.rs:596-651 | the starting record is written before the spawn and marked failed when it fails |
| `Reconciler.Supervisor.StopAll` | crates/ostrom-cli/src/loop_supervisor.rs:544-594 | stops and counts what is obsolete up to the first fault |
| `Reconciler.Supervisor.Reconcile` | crates/ostrom-cli/src/loop_supervisor.rs:195-372 | the stop pass, then every declared loop up to the first fault, with the summary counters; only launches within ceilings, admitted and in time are added, and as many as it reports started |
| `Reconciler.Supervisor.WorkerStart` | crates/ostrom-cli/src/main.rs:1450-1465 | registers the worker exactly when policy, loop and slot still match; otherwise marks the record finished |
| `Reconciler.Supervisor.Finish` | crates/ostrom-cli/src/loop_supervisor.rs:514-542 | clears the identity and keeps the status of a skip record |
| `Reconciler.StopEachIsARun` | crates/ostrom-cli/src/loop_supervisor.rs:544-594 | the stop pass is a run of the transition system |
| `Reconciler.ReconcileEachIsARun` | crates/ostrom-cli/src/loop_supervisor.rs:226-372 | so is the pass over the declared loops, so what holds of runs holds of reconciliations |
| `Reconciler.EveryLoopIsCounted` | crates/ostrom-cli/src/loop_supervisor.rs:226-371 | a successful pass counts every declared loop exactly once |
| `Reconciler.PassLaunchesPermitted` | crates/ostrom-cli/src/loop_supervisor.rs:226-369 | a pass launches only what the tick of each loop permits and reports as many starts |
| `Reconciler.CountersCountOutcomes` | crates/ostrom-cli/src/loop_supervisor.rs:226-371 | each counter is the number of loops with its outcome |
| `Reconciler.StoppedAreCounted` | crates/ostrom-cli/src/loop_supervisor.rs:544-594 | a successful stop pass counts the obsolete records |
| `Reconciler.StopPassSucceedsExactly` | crates/ostrom-cli/src/loop_supervisor.rs:544-594 | the stop pass succeeds exactly when every obsolete record names a process whose termination is confirmed |
| `Reconciler.WedgedRecordStopsReconciliation` | crates/ostrom-cli/src/loop_supervisor.rs:572-577 | an obsolete record without an identity fails every reconciliation before any launch, and stays so |
| `Reconciler.RecordsCanBecomeWedged` | crates/ostrom-cli/src/loop_supervisor.rs:527-533 | such a record is reachable with the handshake intact |
| `PolicyVersion.InspectVersion` | crates/ostrom-cli/src/policy_version.rs:413-468 | passes exactly a directory whose file is the canonical text of a manifest with the expected digest |
| `PolicyVersion.ReadPointer` | crates/ostrom-cli/src/policy_version.rs:520-557 | finds exactly a link to a directory under a valid digest, and tells a missing link from a bad one |
| `PolicyVersion.PrintedDigestIsValid` | crates/ostrom-cli/src/policy_version.rs:552-557 | what the digest function prints is what the store takes for a digest |
| `PolicyVersion.NeverMovesToDrifted` | crates/ostrom-cli/src/policy_version.rs:243-400 | on any disk, at every later instant the versions found are unchanged and `current` is what it was or names a version that passes inspection |
| `PolicyVersion.SafeHistoryContinues` | crates/ostrom-cli/src/policy_version.rs:243-400 | in a store only the program changes, at every instant versions are clean and unchanged, both pointers name one, and `previous` was current before |
| `PolicyVersion.Store.constructor` | crates/ostrom-cli/src/policy_version.rs:121-140 | opens whatever disk is found; an empty one is safe |
| `PolicyVersion.Store.MaterializeVersion` | crates/ostrom-cli/src/policy_version.rs:342-400 | on any disk, refused exactly when the version already there or the written one fails inspection; on success the digest is installed; at every crash point the pointers and other versions are unchanged |
| `PolicyVersion.Store.PointTo` | crates/ostrom-cli/src/policy_version.rs:326-340 | refused exactly on a bad current pointer; otherwise `previous` and then `current` are switched, unless the version is current already |
| `PolicyVersion.Store.Compose` | crates/ostrom-cli/src/policy_version.rs:317-340 | on any disk, refused exactly when the manifest cannot be digested or printed, its version fails inspection or the current pointer is bad; at every crash point `current` is the old pointer or the new version and, once new, `previous` is the old |
| `PolicyVersion.BadPointerRefusesCompose` | crates/ostrom-cli/src/policy_version.rs:487-518 | a current pointer that leads to no version stops the installation |
| `PolicyVersion.ComposeRefusedWhenSafe` | crates/ostrom-cli/src/policy_version.rs:317-400 | in a store only the program changes, only an unprintable manifest or a bad write is refused |
| `PolicyVersion.SoundWriteIsClean` | crates/ostrom-cli/src/policy_version.rs:378-395 | a write that reaches the disk as it was sent passes inspection |
| `PolicyVersion.Store.Rollback` | crates/ostrom-cli/src/policy_version.rs:243-315 | on any disk, points `current` at `previous`, refused exactly when a pointer is missing or bad or the previous version fails inspection |
| `PolicyVersion.RollbackRefusedWhenSafe` | crates/ostrom-cli/src/policy_version.rs:243-315 | in a store only the program changes, refused exactly when a pointer is missing |
| `PolicyVersion.Store.ComposeThenRollback` | crates/ostrom-cli/src/policy_version.rs:243-340 | on any disk, installing a new version over a current one and rolling back restores it, and neither step fails when the old version is clean and the new one not refused |
| `PolicyVersion.Store.InstallStaging` | crates/ostrom-cli/src/policy_version.rs:375-400 | only inspected staging is renamed, under its own digest, and no other version changes |
| `PolicyVersion.Store.SetPrevious` | crates/ostrom-cli/src/policy_version.rs:326-339 | `previous` is only ever set to what is current |
| `PolicyVersion.Store.SetCurrent` | crates/ostrom-cli/src/policy_version.rs:559-593 | the pointer swap is one atomic step to an installed version |
| `IncludeGlob.IncludeGlob` | crates/ostrom-cli/src/policy_manifest.rs:1319-1354 | terminates and matches exactly when the value can be cut into one piece for each token; popped positions strictly increase, so `seen` never rejects one |
| `IncludeGlob.PopFirst` | crates/ostrom-cli/src/policy_manifest.rs:1325 | takes the least position |
| `IncludeGlob.Successors` | crates/ostrom-cli/src/policy_manifest.rs:1332-1351 | successors lie strictly later, and a position matches exactly when one of them does |
| `IncludeGlob.FromIsMatches` | crates/ostrom-cli/src/policy_manifest.rs:1319-1354 | matching position by position equals cutting into pieces |
| `IncludeGlob.WildcardsExactly` | crates/ostrom-cli/src/policy_manifest.rs:1332-1351 | a star stands for bytes without slashes, two stars with or without a slash for any bytes, a question mark for one byte but a slash, any other byte for itself |
| `IncludeGlob.MatchesPartByPart` | crates/ostrom-cli/src/policy_manifest.rs:1332-1351 | a pattern cut anywhere but behind a star matches exactly the values that can be cut accordingly |
| `IncludeGlob.PlainPathMatchesItself` | crates/ostrom-cli/src/policy_manifest.rs:1346-1351 | a pattern without wildcards matches itself alone |
| `IncludeGlob.MatchKeepsDepth` | crates/ostrom-cli/src/policy_manifest.rs:1332-1351 | without `**` the value has as many slashes as the pattern |
| `Values.CollectReferences` | crates/ostrom-core/src/operation.rs:362-391 | accepts exactly well-formed values and adds exactly their untagged references |
| `Values.ReferencesAreWhole` | crates/ostrom-core/src/operation.rs:367-376 | in an accepted string the prefix stands at the start or nowhere, and a plain name follows |
| `Values.ResolveDependsOnRefs` | crates/ostrom-cli/src/operation_dispatch.rs:206-238 | a resolved value depends on nothing but its references |
| `Values.ResolveSucceeds` | crates/ostrom-cli/src/operation_dispatch.rs:206-238 | resolution succeeds exactly when every reference, also behind tags, is supplied |
| `Values.PlainResolvesToItself` | crates/ostrom-cli/src/operation_dispatch.rs:206-238 | a value without references or tags resolves to itself, mappings included |
| `Values.ResolvedIsUntagged` | crates/ostrom-cli/src/operation_dispatch.rs:235 | resolution removes every authored tag: the result carries one only if a supplied value it refers to does |
| `Values.AuthoredStaysExactly` | crates/ostrom-cli/src/operation_dispatch.rs:206-238 | a value in which the check finds no reference resolves to itself if and only if each tagged part is supplied as it stands; an untagged one always does |
| `Values.TaggedDefaultStays` | crates/ostrom-cli/src/operation_dispatch.rs:235 | the case of a tagged value that does: the default is that value |
| `Values.ResolveTells` | crates/ostrom-cli/src/operation_dispatch.rs:206-238 | where mapping keys are plain, a value resolves differently for different values of any reference, also behind tags |
| `Values.ReplacedReferenceIsSilent` | crates/ostrom-cli/src/operation_dispatch.rs:222-235 | without plain keys a later entry can replace a reference, which then tells nothing |
| `Values.SameKeysSameError` | crates/ostrom-cli/src/operation_dispatch.rs:206-238 | a missing parameter is the same for all suppliers that bind the same names |
| `Operations.ValidateReferences` | crates/ostrom-core/src/operation.rs:323-351 | accepts exactly the references that may flow to the parameter |
| `Operations.ValidateParameters` | crates/ostrom-core/src/operation.rs:289-354 | accepts exactly known parameters, all required ones, with accepted flows |
| `Operations.ValidateOperation` | crates/ostrom-core/src/operation.rs:230-287 | accepts exactly the operations whose params and steps are in order |
| `Operations.AcceptedActionsAreGrantable` | crates/ostrom-core/src/operation.rs:230-287 | at any position: an action outside the catalogue or not grantable is refused, merging and tagging need a guard |
| `Operations.AcceptedParamsAreValid` | crates/ostrom-core/src/operation.rs:230-250 | every declared param has a plain lower-case name and a valid declaration |
| `Operations.AcceptedParametersAreKnown` | crates/ostrom-core/src/operation.rs:289-319 | each action gets every parameter it requires and none it does not know |
| `Operations.ValidNameIsReferable` | crates/ostrom-core/src/operation.rs:367-372 | a param that may be declared can be referred to |
| `Operations.MarkdownNeverReachesCommands` | crates/ostrom-core/src/operation.rs:323-351 | two invocations that agree on all params but markdown resolve every untagged command parameter alike |
| `Operations.MarkdownDecidesExactlyBehindTags` | crates/ostrom-core/src/operation.rs:388-390 | for every invocation, another one that differs in markdown alone resolves a command parameter differently only if, and with plain mapping keys exactly if, all references are declared and one behind a tag is to markdown |
| `Operations.AuthoredParameterStaysExactly` | crates/ostrom-core/src/operation.rs:330-340 | a parameter callers may not supply resolves to its authored value, whatever is supplied, exactly when each tagged part is supplied as it stands: always if untagged, and only then unless a default carries a tag |
| `Operations.TagHidesReference` | crates/ostrom-core/src/operation.rs:388-390 | a tagged reference passes the check and is substituted |
| `Operations.AcceptedStepsResolve` | crates/ostrom-cli/src/operation_dispatch.rs:194-238 | once every declared param is bound no accepted untagged step meets a missing one |
| `Operations.ScriptIsAuthored` | crates/ostrom-core/src/operation.rs:95-108 | the untagged script of `cmd/run` is the authored one in every invocation |
| `Flags.ParseFlags` | crates/ostrom-cli/src/operation_dispatch.rs:87-141 | succeeds exactly when the arguments print distinct valid flags and each param without one has a default; binds what each flag gives and, for the other params, the defaults |
| `Flags.ValueExactly` | crates/ostrom-cli/src/operation_dispatch.rs:107-127 | a flag gives a declared param its own text if valid, or for markdown the file it names |
| `Flags.FirstFault` | crates/ostrom-cli/src/operation_dispatch.rs:94-126 | the first flag out of order decides the fault: unknown, repeated, unreadable or invalid |
| `Flags.Underscored` | crates/ostrom-cli/src/operation_dispatch.rs:107 | dashes of a flag stand for underscores, character by character |
| `Flags.ParsesExactlyWhatPrints` | crates/ostrom-cli/src/operation_dispatch.rs:87-141 | the arguments parse exactly when they print distinct valid flags, in any order and either form, and then to exactly those bindings |
| `Flags.PrintedParses` | crates/ostrom-cli/src/operation_dispatch.rs:92-128 | parsing undoes printing |
| `Flags.ParsedWasPrinted` | crates/ostrom-cli/src/operation_dispatch.rs:92-128 | whatever parses was printed from some flags |
| `Flags.SplitOnce` | crates/ostrom-cli/src/operation_dispatch.rs:98-112 | the flag is cut at its first `=` |
| `BranchListing.ResolveExactBranch` | crates/ostrom-core/src/dispatch.rs:79-133 | answers exactly when a short page proves exhaustion, counts the pages up to it, finds the first exact name, and otherwise says what stopped it |
| `BranchListing.AnswersExactlyOnWholeListing` | crates/ostrom-core/src/dispatch.rs:86-110 | of a listing cut into pages only the whole of it, within the limit, gives an answer |
| `BranchListing.AskRemote` | crates/ostrom-core/src/dispatch.rs:77-133 | a negative answer is given only for a name the remote does not have |
| `BranchListing.CheckedPagesDecideExactly` | crates/ostrom-core/src/dispatch.rs:111-127 | whatever pages follow, the answer is that of the checked pages exactly when the name occurs on one of those |
| `BranchListing.LaterPagesDecide` | crates/ostrom-core/src/dispatch.rs:111-127 | given later pages leave the answer alone exactly when the name was found before them or is not on them |
| `BranchListing.LaterPagesKeepExhaustion` | crates/ostrom-core/src/dispatch.rs:86-110 | later pages never change where the listing is exhausted |
| `BranchListing.CheckedMatchIsSound` | crates/ostrom-core/src/dispatch.rs:30-44 | a branch found on a checked page has a name and a head of forty hexadecimal digits |
| `BranchListing.UncheckedPageAnswers` | crates/ostrom-core/src/dispatch.rs:111-127 | the least case: a branch on a page after the short one is matched without being checked or counted |
| `RunCaps.ParsesExactly` | crates/ostrom-core/src/run_caps.rs:86-111 | a text parses exactly when it is digits and a unit whose seconds are positive and fit 64 bits |
| `RunCaps.UnitsExactly` | crates/ostrom-core/src/run_caps.rs:94-106 | a number and a unit are that many seconds, minutes, hours or days while the counter holds them |
| `RunCaps.ParseUndoesRender` | crates/ostrom-core/src/run_caps.rs:224-233 | the rendered form parses back exactly for positive 64-bit values; zero does not |
| `RunCaps.RenderIsLeast` | crates/ostrom-core/src/run_caps.rs:224-233 | no way to write a duration has a smaller number than the rendered one |

## Left out

- Vectors taken from ordered maps and sets are sets and maps here: their order is a
  function of their contents. Where a map is iterated, the model takes its keys in any
  order; this changes only which of several faults is reported first.
- The wrap of an unblocking power from `usize` to `isize` in a sort key: it needs more
  than 2^63 nodes.
- Timestamps, reasons, log lines and all rendering of text, beyond a log line's failure.
- The round constants and initial values of section 4.2.2 and 5.3.3 of FIPS 180-4 are given as in
  the source, not derived from the roots of primes.
- Reading and rewriting one record is one step of the supervisor. Interleavings inside
  it, and a policy that changes in the middle of a reconciliation, are not modelled.
- Process identity is a pid with its start time, so recycled pids do not occur, and a
  termination is confirmed or not; signals and process groups are outside.
- The reaping of stalled holds, and the measurement of spend, tokens and concurrency:
  a loop is within its ceilings, beyond them, or cannot be measured.
- Activation slots are natural numbers in their order in time; that slots advance is a
  condition of the two results on launching once.
- The digest of receipts is a function parameter, injective on the journal where
  a result needs it (`Judgment.DigestsIdentify`); collision resistance is not modelled.
- YAML and JSON decoding, signing and signature checks: `PolicyVersion.Library` holds a
  parser, a printer and a digest, and round trips are conditions where they are needed.
- Catalogue selection, the decoding of agent prompts and models, the syntax of semantic
  versions and of declared defaults, and reading markdown files are parameters of the
  contexts (`Judgment.Context`, `Operations.Rules`, `Flags.Context`).
- File permissions, stray temporary links and faults of reading a pointer or a file of the policy store;
  a write reaches the disk as any text, or none.
- `load_current` and `verify_current`: they add a comparison to what `InspectVersion` and
  `ReadPointer` decide.
- Operations.MarkdownDecidesExactlyBehindTags: that markdown behind a tag does decide is stated for
  values whose mapping keys are plain and distinct. With other keys two of them can resolve alike and one
  value replace the other (`Values.ReplacedReferenceIsSilent`); the other direction has no condition.
- Judgment.CachedBoundAgrees: speaks of journals whose judged receipts were all prepared
  and executed by the program, as the bound is computed nowhere else.
- Ranking.ComposedIsRanked: unique queue ids are assumed; a repeated id can be listed twice.
- Goal facts other than the milestone order and `next` (met, impediments, fact tables,
  assessments, consequence).
- `compose_scopes`, `merge_fallback` and `insert_leaf`: single-key merges without
  an interaction.
- Gate configuration in `domain.rs`, the trace folds in `doctor.rs`, `resolve_check` and
  `fresh_for`, work orders, leases, admission, hosts, HTTP and GitHub calls.
