# Verified model of the task scheduler, compute compiler, capability lifetimes and text formats

This Dafny project models the core of the repository and proves properties of the model. `dafny verify dfyconfig.toml`
checks all of it. The proofs concern the model; nothing here runs the original program.

## What is modelled

**From effects to execution.** Tasks run byte-level modules (`Ir.dfy`, `Interpreter.dfy`, `ReferenceExecutor.dfy`) and
declare dependencies; `ExecutionHistories.dfy` says what each instruction does and when a run stops. Planning adds an
edge for every conflicting pair of tasks that no path orders yet (`EffectConflicts.dfy`, `EffectGraphs.dfy`,
`ExecutionPlans.dfy`), linearises the graph (`CanonicalOrder.dfy`) and cuts it into components, waves and transitions
with visibility facts (`Components.dfy`, `Waves.dfy`, `Transitions.dfy`, `ExecutionSchedules.dfy`,
`ScheduleProperties.dfy`, `SchedulePlacement.dfy`). The reference backend enters tasks in component-major wave order,
cancels what lies below a failure and retries (`ReferenceSubmit.dfy`). `ScheduleSemantics.dfy` says what running a
task set means and proves that the meaning is the same for every linear extension; the ingredients are the
interpreter's footprint (`Footprint.dfy`) and a commuting-permutation argument. `Materialization.dfy` joins the pieces
from modules and dependencies to a finished submission. `TaskGraphs.dfy` models the task-graph builder's own, less
careful, conflict edges, `GraphPlanning.dfy` what planning makes of a graph so sealed, and `GraphExecution.dfy` how
the oracle executes it.

**The compute compiler.** `ComputePackages.dfy` models the three package builders and their emitters; statements are a
datatype, not text. `ComputeKernels.dfy` gives the statements a meaning on little-endian buffers and proves that a
kernel does what the byte interpreter does.

**Capability lifetimes.** The arena (`Arenas.dfy`, `ArenaStore.dfy`), the facet pool (`CanonicalViews.dfy`,
`Facets.dfy`), runs of both under any interleaving (`Capabilities.dfy`, `TokenLifetimes.dfy`), submission holds
(`LifetimeHolds.dfy`, `HoldConservation.dfy`), the publication of new representations (`RepresentationCommit.dfy`),
and a submission's lifetimes from the preparation of its hold to its release (`SubmissionLifetimes.dfy`).

**Protocols.** The publication ring called from one thread (`PublicationRings.dfy`) and as interleaved atomic steps
(`RingSteps.dfy`, with a run that overflows in `RingOverflow.dfy`); envelope continuations (`Envelopes.dfy`); the
pipeline cache (`PipelineKeys.dfy`).

**Reachability and replay.** Discovery over packed references (`Discovery.dfy`), captures and their rediscovery
(`Captures.dfy`).

**Text.** JSON (`Json.dfy`, `JsonText.dfy`, `JsonLayouts.dfy`) and modules as documents (`IrText.dfy`,
`IrMeaning.dfy`).

`Digraph.dfy`, `Adjacency.dfy`, `Sorting.dfy`, `Bytes.dfy`, `Collections.dfy` and `Wrappers.dfy` hold what the others
share.

## How to read the model

- Code that changes state is a class or a method with loops, proved against functions of the old state; properties of
  whole runs are lemmas about those functions.
- Memory is a map from allocation ids to records. `Backed` says that a live allocation's bytes are as many as its size;
  the interpreter checks the size and relies on this. Allocation metadata does not change while tasks run, which is why
  effects on different representation epochs need not be ordered.
- A task's module and effects are looked up by its index. What planning checks besides the tasks themselves is not part
  of this model: node references in a node table, the envelope's authorisation and certificate modes, the canonical
  hash of a module, the requests of the representation plan, and that a package belongs to its module.
- An empty certificate means no certificate check, as in the reference backend.
- `Headroom`, `CountsBelow`, `CountersBelow` and the bounds on `next` say that a 32- or 64-bit counter is not about to
  wrap; where a function increments such a counter the wrap itself is modelled. `CountersBelow` also bounds a ring by
  2^31 slots, beyond which claims are lost.
- The single-threaded kernel body is what is modelled: the generated kernels return unless the thread position is zero.
- A character of a string stands for one byte.
- Recursive depth and the number of tasks and bindings are unbounded here; in the program indices are 32-bit.

## Findings

- Sealing a task graph with declared effects adds an edge for every conflicting pair, ordered or not, and hands all edges
  on as the graph's dependencies. A declared dependency between conflicting tasks therefore appears twice
  (`TaskGraphs.SealDuplicatesExactly`), and planning refuses such a graph: `GraphPlanning.PlannableExactly` gives the exact
  condition, `GraphPlanning.SealedButNotPlannable` two tasks that fail it, and `TaskGraphs.BackwardDependencyRefused` the
  companion case that sealing itself refuses.
- The size check of a facet target compares the allocation with a byte size computed modulo 2^64, so not every accepted
  target is backed by its allocation. `Facets.TargetBacksExactly` states when it is, `Facets.VastViewAccepted` gives an
  input for which it is not. `CanonicalViews.AddressesExactly` says when the executor's addresses are exact, and
  `Facets.VastArrayCollides` gives an accepted view in which two texels share an address.
- A ring reservation returns its slot's index as a signed 32-bit number. From 2^31 on the caller takes the claim for an
  overflow and the slot is never used again (`RingSteps.ClaimLostExactly`, `RingSteps.LostInRun`);
  `RingOverflow.LastClientOverflows` is a run from an empty ring in which this happens.
- A module whose unsigned fields reach 2^63 is serialised with negative numbers and cannot be parsed again;
  `IrText.TextRoundTrip` states the condition exactly and `IrText.HighLoadNotAccepted` gives a verified module.
- A capture of an arena in which a reached allocation is empty or has been consumed cannot be replayed;
  `Captures.CaptureAndReplay` states the condition exactly, and `Captures.EmptyNotReplayable` and
  `Captures.ConsumedBehindReference` give an input for either case.

## Model

| member | source | states |
|---|---|---|
| Materialization.SealAndSubmit | src/backends/reference/reference_device_hal.cpp:419-674 | End to end: for all admissible tasks and acyclic, duplicate-free dependencies, the submission leaves the arena bytes and the started, cancelled and failed sets of any linear extension of the sealed edges, run under the rule that a task below a failure never runs; the report's trace is the traces of the tasks that ran, one after another in the order in which they were entered, and its uncovered effects those of the failed ones; all other inputs are refused with the arena unchanged. |
| Materialization.SealPlan | src/core/execution_plan.cpp:1404-1570 | Sealing succeeds if and only if there is a task, every root and every allocation an effect or a dereference names is active, every module verifies, a supplied certificate covers every task's effects, and the dependencies are in range, acyclic and duplicate-free; conflict inference and schedule derivation never add a reason to fail. On success the plan is sealed, the order canonical, the schedule exact, and the certificate the supplied one or all the effects. |
| Materialization.CheckCertificate | src/core/execution_plan.cpp:1538-1570 | A supplied certificate is accepted exactly when it covers every task's effects. |
| Materialization.SealedCovers | src/core/execution_plan.cpp:1563-1570 | A sealed plan's certificate covers all effects of each of its tasks, the default one included. |
| Materialization.SealedFaultsAreRuntimeFaults | src/backends/reference/reference_executor.cpp:52-102 | Whatever memory a task of a sealed plan meets, it never fails for its certificate or for invalid code. |
| Materialization.TaskEffects | src/core/execution_plan.cpp:1424-1521 | Per-task effects exist exactly when every root is active, every module verifies and every allocation it touches is active, and are the modules' instantiated effects. |
| Materialization.TaskEffectsOf | src/core/execution_plan.cpp:478-511 | The same for one task: its dereference targets are looked up at the generation they name, its effects at generation 1. |
| Materialization.ReconciledStructural | src/core/execution_schedule.cpp:93-100 | On reconciled edges every edge is structural, and they are duplicate-free exactly when the declared dependencies are. |
| ScheduleSemantics.AnyLinearExtensionMeansTheSame | src/backends/reference/reference_device_hal.cpp:419-646 | Any two linear extensions of the structural edges leave the same bytes and give every task the same outcome, faults included. |
| ScheduleSemantics.IndependentTasksCommute | src/backends/reference/reference_device_hal.cpp:451-466 | Two tasks with no edge and no conflict between them can be visited in either order: same bytes, same outcomes, same cancellations. |
| ScheduleSemantics.EquivalentOrders | src/backends/reference/reference_device_hal.cpp:422-426 | Orders of the same tasks that order every dependent pair alike mean the same (trace equivalence). |
| ScheduleSemantics.MoveToFront | src/backends/reference/reference_device_hal.cpp:451-466 | A task independent of all that precede it can be run first. |
| ScheduleSemantics.FailurePropagationExact | src/backends/reference/reference_device_hal.cpp:433-454 | After a complete run every task ran or was cancelled, never both; the cancelled tasks are exactly those with a failed proper ancestor; a task ran exactly when all its direct predecessors succeeded. |
| ScheduleSemantics.RunOrderLocallyExact | src/backends/reference/reference_device_hal.cpp:433-454 | In every run exactly the visited tasks with a failed or cancelled direct predecessor are cancelled. |
| ScheduleSemantics.BlockingSpreads | src/backends/reference/reference_device_hal.cpp:433-444 | Everything a failed task reaches is cancelled. |
| ScheduleSemantics.CancelledHasFailedAncestor | src/backends/reference/reference_device_hal.cpp:433-444 | Nothing is cancelled without a failed proper ancestor. |
| ScheduleSemantics.OutcomesAreExecutions | src/backends/reference/reference_device_hal.cpp:455-463 | In a run each task that is not cancelled is executed on the memory that the tasks before it left, against the plan's certificate and its own effects, and a cancelled one leaves the memory alone. |
| ReferenceSubmit.SubmitSchedule | src/backends/reference/reference_device_hal.cpp:419-674 | Component-major wave order with cancellation and retry leaves the bytes and the started and cancelled sets of the canonical order; the result is ok exactly when no task failed, otherwise it carries the fault of the failed task of least canonical rank and the poison state that the produced output calls for; its trace holds each entered task's own trace behind those of the tasks entered before it, and nothing else. |
| ReferenceSubmit.RunInOrder | src/backends/reference/reference_device_hal.cpp:427-646 | The retry loop run over any linear extension leaves the state, the marks and the ledger of that order's run. |
| ReferenceSubmit.ScheduleRun.RunToCompletion | src/backends/reference/reference_device_hal.cpp:445-646 | Passes repeat until one makes no progress, and then every task has been dealt with; the loop terminates. |
| ReferenceSubmit.ScheduleRun.Pass | src/backends/reference/reference_device_hal.cpp:446-466 | One pass keeps the state that of the tasks dealt with so far, moves forward when it reports progress and otherwise has dealt with all of them. |
| ReferenceSubmit.ScheduleRun.Step | src/backends/reference/reference_device_hal.cpp:451-454 | A task already started or cancelled is skipped without losing the run's meaning; any other is the next one to enter. |
| ReferenceSubmit.ScheduleRun.Enter | src/backends/reference/reference_device_hal.cpp:454-463 | Entering one task advances the run by exactly that task, failure and cancellation included. |
| ReferenceSubmit.ScheduleRun.Record | src/backends/reference/reference_device_hal.cpp:457-463 | A result is booked as the run accumulates it, and a failure marks exactly the descendants of the task as cancelled. |
| ReferenceSubmit.CancelDescendants | src/backends/reference/reference_device_hal.cpp:433-444 | Although it spreads only through tasks that are neither started nor cancelled, it marks exactly the proper descendants of the failed task in addition to those marked before. |
| ReferenceSubmit.NextIsCancelledExactly | src/backends/reference/reference_device_hal.cpp:452-454 | The next task is already marked cancelled exactly when a direct predecessor failed or was cancelled. |
| ReferenceSubmit.SkipCancelled | src/backends/reference/reference_device_hal.cpp:452-453 | Skipping a cancelled task is visiting it. |
| ReferenceSubmit.EnterTask | src/backends/reference/reference_device_hal.cpp:454-463 | Entering a task and cancelling below its failure is visiting it. |
| ReferenceSubmit.DescendantsComeLater | src/backends/reference/reference_device_hal.cpp:433-444 | No task that has been dealt with is a descendant of the next one. |
| ReferenceSubmit.AccumulatedMeaning | src/backends/reference/reference_device_hal.cpp:638-646 | The recorded failures are exactly the failed tasks with their faults, output counts as produced exactly when some task completed with an effect that is not a read or failed after a write, and the recorded trace and uncovered effects are the tasks' own, each at the sum of the lengths before it. |
| ReferenceSubmit.PrimaryFault | src/backends/reference/reference_device_hal.cpp:661-668 | The primary fault is a recorded failure, and no other recorded failure precedes it in the canonical order. |
| ReferenceSubmit.Conclude | src/backends/reference/reference_device_hal.cpp:661-674 | The reported ok flag, validity, poison state and fault follow from the run's outcomes alone. |
| Footprint.ExecutionsCommute | src/backends/reference/reference_executor.cpp:9-49 | Executions of modules whose effects do not conflict commute: same final memory, same two results, faults included. |
| Footprint.ExecuteChangesOnly | src/backends/reference/reference_executor.cpp:9-102 | An execution changes no byte outside its writing and atomic effects, and no metadata. |
| Footprint.ExecuteAgrees | src/backends/reference/reference_executor.cpp:9-102 | An execution depends on no byte outside its effects: memories that agree there give the same result and agree there afterwards. |
| Footprint.InterpretAgrees | src/backends/reference/reference_executor.cpp:9-49 | One instruction sees only bytes of its own effect. |
| Footprint.InterpretChangesOnly | src/backends/reference/reference_executor.cpp:9-49 | One instruction changes only bytes of its own writing or atomic effect. |
| Footprint.WritesMissOther | src/core/effect_graph.cpp:28-34 | Without a conflict, no byte one module writes is touched by the other. |
| ReferenceExecutor.ExecuteModule | src/backends/reference/reference_executor.cpp:52-102 | The executor's loop leaves the arena bytes and the result of the functional interpreter. |
| ReferenceExecutor.InterpretInstruction | src/backends/reference/reference_executor.cpp:9-49 | The in-place instruction step does what the functional step does: bytes, references, trace, fault. |
| ReferenceExecutor.StoreBytes | src/backends/reference/reference_executor.cpp:36-41 | The byte-by-byte store loop lays copies of the low byte over exactly the range. |
| ReferenceExecutor.ExecutionIsSound | src/backends/reference/reference_executor.cpp:52-102 | Against a certificate and the sealed effects, whether or not the execution completes, every changed byte lies in a certificate range that grants writing or atomics and nothing else changes; the trace of a completed execution is a permutation of the instantiated effects. |
| ReferenceExecutor.CertificateMissExactly | src/backends/reference/reference_executor.cpp:73-89 | An execution is refused for its certificate exactly when some sealed effect is not covered; then there is no trace and no change, and the missing effects are exactly the uncovered ones. |
| ReferenceExecutor.TraceIsProgramPrefix | src/backends/reference/reference_executor.cpp:16-20 | The trace is a prefix of the program's effects, and all of them when the run completes. |
| ReferenceExecutor.CollectMissing | src/backends/reference/reference_executor.cpp:73-77 | Collects exactly the sealed effects the certificate does not cover, in order. |
| ExecutionHistories.ExecutionIsHistory | src/backends/reference/reference_executor.cpp:9-102 | An execution that is not refused runs until the first instruction that cannot complete, and is ok exactly when there is none: an access out of bounds or stale, a reference load or an atomic of the wrong width, or a dereference whose reference load did not find the packed target when it ran. The fault names that instruction, its access and its reason; the output is partially produced exactly when an earlier instruction wrote; the trace is the accesses made. |
| ExecutionHistories.NothingDangles | src/backends/reference/reference_executor.cpp:30-34 | In an execution that is ok every dereference's reference load found exactly the twelve bytes of the dereference's target, in the memory it met. |
| ExecutionHistories.StopsExactly | src/backends/reference/reference_executor.cpp:9-49 | One instruction of a run stops exactly when it cannot complete, with that reason. |
| ExecutionHistories.CompletedPerforms | src/backends/reference/reference_executor.cpp:35-49 | A completed store leaves the low byte of its value in every byte of its range, a completed atomic the sum modulo 2^64 in its word, and no instruction changes another byte. |
| ExecutionHistories.RefusalReport | src/backends/reference/reference_executor.cpp:73-89 | A refusal for the certificate lists the uncovered effects, names the first, and leaves no byte changed, no trace and nothing valid. |
| ExecutionHistories.UnverifiedIsRefused | src/backends/reference/reference_executor.cpp:60-72 | A module that does not verify is refused with the memory unchanged. |
| ExecutionHistories.MissingConcat | src/backends/reference/reference_executor.cpp:73-77 | The uncovered effects are listed in the order of the effects, each as often as it is given. |
| ExecutionHistories.EffectsConcat | src/core/execution_plan.cpp:494-511 | The direct effects, and those of the dereferences, are listed in program order. |
| Interpreter.InterpretKeepsShape | src/backends/reference/reference_executor.cpp:9-49 | No instruction changes an allocation's metadata or the length of its bytes. |
| Interpreter.PackedExactly | src/backends/reference/reference_executor.cpp:22-28 | Twelve bytes are read as a reference exactly when they are its little-endian identity and generation: decoding undoes packing, and packing undoes decoding. |
| Ir.Verify | src/ir/ir.cpp:64-80 | Accepts exactly the well-formed modules, and infers exactly the effects of the direct accesses. |
| Ir.EffectCoversMeaning | src/ir/ir.cpp:58-58 | Coverage is range inclusion in the same allocation and epoch with the same access, except that an effect asking for no access is covered by any. |
| Ir.InstantiatedIsProgram | src/core/execution_plan.cpp:499-511 | The instantiated effects are a permutation of the program's: none lost, none invented. |
| Ir.DirectEffectsMeaning | src/ir/ir.cpp:66-77 | The inferred effects are those of the instructions that do not dereference. |
| ExecutionPlans.InstantiateNodeEffects | src/core/execution_plan.cpp:499-511 | For a verified module the plan's effects are the direct accesses followed by the dereferences. |
| EffectConflicts.ConflictMeaning | src/core/effect_graph.cpp:28-34 | Fitting effects conflict exactly when they share a byte of one allocation at one epoch and are not both reads. |
| EffectConflicts.OverlapIsConflict | src/core/execution_schedule.cpp:13-30 | The overlap computation succeeds exactly when the effects conflict, and the range it finds holds exactly the bytes both cover. |
| EffectConflicts.ConflictSymmetric | src/core/effect_graph.cpp:28-34 | Conflicts are symmetric. |
| EffectConflicts.ScanForConflict | src/core/execution_plan.cpp:803-806 | The nested scan finds a conflict exactly when the two tasks conflict. |
| EffectGraphs.EffectGraph.AddEdge | src/core/effect_graph.cpp:14-19 | Appends exactly one edge, and refuses self-loops. |
| EffectGraphs.EffectGraph.AddTimelineEdge | src/core/effect_graph.cpp:21-26 | Adds a timeline edge exactly when the required value is non-zero and already signalled. |
| EffectGraphs.EffectGraph.Valid | src/core/effect_graph.cpp:71-84 | The three-colour depth-first search accepts exactly the acyclic graphs. |
| EffectGraphs.ColouringSearch.Visit | src/core/effect_graph.cpp:75-82 | A visit that succeeds blackens the node and leaves no path from finished nodes to unfinished ones; one that fails has found a cycle. |
| EffectGraphs.ColouringSearch.Run | src/core/effect_graph.cpp:71-84 | Visiting every node decides acyclicity. |
| EffectGraphs.EffectGraph.ValidateHappensBefore | src/core/effect_graph.cpp:36-69 | Accepts exactly the graphs whose edges are in range and order every conflicting pair of tasks by a path. |
| Adjacency.ReachableFrom | src/core/execution_plan.cpp:788-801 | The breadth-first search marks exactly the nodes reachable from its source. |
| Digraph.AcyclicWithNewEdge | src/core/execution_plan.cpp:807-812 | Adding an edge between nodes that were unordered cannot close a cycle. |
| Digraph.ReachesWithNewEdge | src/core/execution_plan.cpp:807-812 | A path through an enlarged relation avoids the new edge or splits at it. |
| Digraph.ReachesRunsForward | src/core/execution_schedule.cpp:67-83 | Paths run forwards through a linear extension. |
| Digraph.NoSourceMeansCycle | src/core/effect_graph.cpp:204-207 | A non-empty remainder in which every node has a remaining predecessor contains a cycle. |
| ExecutionPlans.BuildValidatedEffectGraph | src/core/execution_plan.cpp:772-824 | Fails exactly when a dependency is out of range or the dependencies contain a cycle, so the final validity checks are unreachable; on success every declared edge is kept, every conflicting pair is ordered, the graph is acyclic, and the inferred edges are those of the specification. |
| ExecutionPlans.InferConflicts | src/core/execution_plan.cpp:803-815 | Each inferred edge runs from low to high between conflicting tasks that the edges present at that moment left unordered, and every such pair gets one. |
| ExecutionPlans.InferRow | src/core/execution_plan.cpp:804-814 | One row of the pair scan keeps exactly that invariant. |
| ExecutionPlans.ConflictsUnordered | src/core/execution_plan.cpp:805-810 | Detects exactly the conflicting pairs that no path orders. |
| ExecutionPlans.SealDeclared | src/core/execution_plan.cpp:782-787 | Copies the declared edges, and refuses exactly unknown tasks and self-loops. |
| ExecutionPlans.ReconciledOrdersConflicts | src/core/execution_plan.cpp:803-815 | The reconciled edges order every conflicting pair. |
| ExecutionPlans.InferenceAddsNoDuplicate | src/core/execution_plan.cpp:807-812 | An inferred edge repeats neither a declared nor another inferred edge. |
| ExecutionPlans.DuplicateFreeExactly | src/core/execution_schedule.cpp:95-100 | The graph is free of duplicate edges, as schedule derivation demands, exactly when the declared dependencies are. |
| TaskGraphs.SealTaskGraph | src/core/task_graph.cpp:173-195 | With declared effects, sealing succeeds exactly when the dependencies together with every conflicting pair, lower index first, are acyclic; the dependencies handed on are the pairs of all sealed edges, duplicates included. |
| TaskGraphs.RebuiltPairs | src/core/task_graph.cpp:189-190 | The dependencies handed on relate exactly the tasks the sealed edges relate. |
| GraphPlanning.SealAndPlan | src/core/task_graph.cpp:173-195 | Sealing a graph and planning what was sealed succeeds exactly when sealing does, the tasks are admissible, the declared dependencies are distinct and none of them joins two conflicting tasks, lower index first. |
| GraphPlanning.PlannableExactly | src/core/execution_plan.cpp:782-787 | The rebuilt dependencies of a sealed graph can be planned exactly under those conditions. |
| GraphPlanning.RebuiltDistinct | src/core/task_graph.cpp:189-190 | The rebuilt dependencies are duplicate-free exactly when the declared ones are and none of them is a hazard. |
| GraphPlanning.SealedButNotPlannable | src/core/execution_plan.cpp:782-787 | Two tasks that write the same byte, the first declared before the second: the builder seals the graph, the bare dependency could be planned, and the sealed graph cannot. |
| TaskGraphs.SealDuplicatesExactly | src/core/task_graph.cpp:177-186 | Sealed edges repeat an edge exactly when a dependency is declared twice or joins two conflicting tasks, lower index first: the graphs schedule derivation can never accept. |
| TaskGraphs.DependencyRepeated | src/core/task_graph.cpp:177-186 | A declared dependency between conflicting tasks, lower index first, appears twice in the sealed edges. |
| TaskGraphs.BackwardDependencyRefused | src/core/task_graph.cpp:187-187 | A dependency from the higher to the lower of two conflicting tasks is always refused. |
| TaskGraphs.AddHazards | src/core/task_graph.cpp:178-186 | Adds one inferred edge per conflicting pair, in ascending order. |
| CanonicalOrder.DeterministicOrder | src/core/effect_graph.cpp:179-209 | Succeeds exactly when the structural edges are in range and acyclic, and then returns their canonical order. |
| CanonicalOrder.CanonicalIsLeast | src/core/effect_graph.cpp:197-203 | The canonical order is a linear extension, and the lexicographically least one. |
| CanonicalOrder.CanonicalUnique | src/core/effect_graph.cpp:179-209 | There is only one canonical order. |
| CanonicalOrder.CycleChecksAgree | src/core/effect_graph.cpp:71-84 | On structural graphs in range the colouring search accepts exactly when the ready-list loop emits every node. |
| CanonicalOrder.EmitAll | src/core/effect_graph.cpp:193-207 | The ready-list loop emits a greedy order, of every node unless there is a cycle. |
| CanonicalOrder.Release | src/core/effect_graph.cpp:202-202 | Decrementing successors keeps every in-degree equal to the number of unemitted predecessors and the ready list exact. |
| CanonicalOrder.TakeLeast | src/core/effect_graph.cpp:198-200 | Sorting and taking the front removes the least ready node. |
| CanonicalOrder.StuckMeansCycle | src/core/effect_graph.cpp:204-207 | An empty ready list with nodes left over means a cycle. |
| ExecutionSchedules.DeriveExecutionSchedule | src/core/execution_schedule.cpp:48-251 | Succeeds exactly when the inputs cover every task, the edges are in range, no structural edge is repeated, the structural edges are acyclic and the given order is the canonical one; then components, waves, transitions and successors are all exact. |
| ExecutionSchedules.BuildComponents | src/core/execution_schedule.cpp:128-175 | One levelled component per connected class, or a cycle. |
| ExecutionSchedules.BuildComponent | src/core/execution_schedule.cpp:143-174 | One component's waves are its levels, or there is a cycle. |
| ExecutionSchedules.BuildTables | src/core/execution_schedule.cpp:85-105 | The successor and neighbour tables hold exactly the structural edges; fails exactly on an unknown task or a repeated structural edge. |
| ExecutionSchedules.AllReaches | src/core/execution_schedule.cpp:110-122 | The reachability matrix is exact. |
| ExecutionSchedules.BuildTransition | src/core/execution_schedule.cpp:186-246 | One boundary's transition has exactly its facets, operations and regions, and is kept exactly when it carries a fact. |
| ExecutionSchedules.BuildTransitions | src/core/execution_schedule.cpp:177-247 | Exactly the kept transitions of all boundaries, in order. |
| ExecutionSchedules.WaveNumbers | src/core/execution_schedule.cpp:180-184 | Every task of the component is numbered with its wave. |
| ExecutionSchedules.IsPermutation | src/core/execution_schedule.cpp:67-75 | Accepts exactly the listings of every task once. |
| Components.FindComponents | src/core/execution_schedule.cpp:128-145 | The components are exactly the connected classes, each once and sorted, and together hold every task. |
| Components.Flood | src/core/execution_schedule.cpp:132-141 | The work list ends up with exactly the tasks connected to the seed, each once. |
| Components.ComponentsDisjoint | src/core/execution_schedule.cpp:128-175 | No task lies in two components. |
| Components.ReachStaysInside | src/core/execution_schedule.cpp:128-175 | No path leaves its component. |
| Waves.LevelComponent | src/core/execution_schedule.cpp:146-173 | Repeatedly emitting the tasks without unemitted predecessors levels the component, or finds a cycle. |
| Waves.WaveIsLongestPath | src/core/execution_schedule.cpp:154-173 | A task's wave number is the length of the longest path that ends in it. |
| Waves.ReadyTasksMeaning | src/core/execution_schedule.cpp:155-158 | A wave holds exactly the unemitted tasks of in-degree zero, in ascending order. |
| ScheduleProperties.ComponentMajorIsLinearExtension | src/backends/reference/reference_device_hal.cpp:422-426 | The order in which the backend enters tasks visits each once and never before a predecessor. |
| ScheduleProperties.ScheduledTasks | src/backends/reference/reference_device_hal.cpp:422-426 | Collects the waves component by component. |
| ScheduleProperties.UnorderedPositionsNeverConflict | src/core/execution_schedule.cpp:143-175 | Tasks that share a wave or lie in different components never conflict. |
| ScheduleProperties.UnorderedPositions | src/core/execution_schedule.cpp:143-175 | Nor is there a path between them. |
| ScheduleProperties.RegionsAreConflicts | src/core/execution_schedule.cpp:220-238 | A transition's region requirements correspond one to one, and in order, to the conflicting effect pairs of happens-before-ordered tasks whose consumer is in its wave. |
| ScheduleProperties.RegionBetween | src/core/execution_schedule.cpp:13-30 | Each region requirement names both tasks, both accesses and exactly the bytes both effects cover. |
| ScheduleProperties.VisibilityComplete | src/core/execution_schedule.cpp:220-246 | Every conflicting pair of ordered tasks is recorded at its consumer's wave and nowhere else. |
| SchedulePlacement.OperationsOfTransition | src/core/execution_schedule.cpp:199-218 | A transition's operations are those of the plan entries whose allocation its wave is the first of the component to touch, by effect or by facet: each once, in plan order, and no other. |
| SchedulePlacement.OperationPlacedOnce | src/core/execution_schedule.cpp:199-218 | In a component with a task that touches its allocation, a plan entry belongs to exactly one transition, that into the least wave with such a task; in any other component to none. |
| SchedulePlacement.FacetsOfTransition | src/core/execution_schedule.cpp:195-197 | A transition's facet requirements are the uses of its wave's tasks: each once, by task and then in the task's own order. |
| SchedulePlacement.FacetUsePlacedOnce | src/core/execution_schedule.cpp:195-197 | A task that uses facets is in the wave of exactly one transition. |
| SchedulePlacement.TransitionsExactly | src/core/execution_schedule.cpp:186-246 | There is one transition into every wave, except a first wave without facet uses and operations; it names the wave before it, and waits for completion, exactly when there is one, and a first wave carries no regions. |
| Transitions.CollectRegions | src/core/execution_schedule.cpp:220-238 | The nested scan records exactly the visible pairs, each once and in order. |
| Transitions.CollectFacets | src/core/execution_schedule.cpp:195-197 | Exactly the facet uses of the wave's tasks, in order. |
| Transitions.CollectOperations | src/core/execution_schedule.cpp:199-218 | Exactly the representation operations whose allocation is first used in this wave, in plan order. |
| ComputePackages.BuildLinearComputePackage | src/compiler/compute_package.cpp:101-127 | Accepts exactly the verified modules of aligned word loads and stores and 64-bit atomics; bindings are dense, ascending and exactly the referenced allocations; each statement acts on its instruction's own range of its own allocation; and wherever the byte interpreter succeeds, either dialect's kernel yields its bytes. |
| ComputePackages.BuildPointerGraphComputePackage | src/compiler/compute_package.cpp:75-99 | The same for reference loads and dereferences: reference loads leave no statement and their allocations no binding, and the kernels are still faithful. |
| ComputePackages.BuildIndexedComputePackage | src/compiler/compute_package.cpp:129-168 | The same for aligned word loads and stores over the table of addresses, whose rows stand in order of first use. |
| ComputeKernels.KernelMatchesInterpreter | src/compiler/compute_codegen.cpp:44-180 | For every module whose instructions lower, if the interpreter succeeds, one run of the emitted kernel over its buffers is defined and leaves identical bytes, and unbound allocations are unchanged. |
| ComputeKernels.RunSimulates | src/compiler/compute_codegen.cpp:99-123 | The same from any instruction on. |
| ComputeKernels.StatementSimulates | src/compiler/compute_codegen.cpp:99-123 | One instruction that does not fault and its statement change the bound bytes alike and no others. |
| ComputeKernels.PatternIsFill | src/compiler/compute_codegen.cpp:14-17 | The broadcast word pattern, written little-endian, is the interpreter's byte-by-byte fill. |
| ComputeKernels.OperandWraps | src/compiler/compute_codegen.cpp:115-121 | Adding the unsigned image of the operand modulo 2^64 is the interpreter's wrapping signed addition. |
| ComputeKernels.AtomicYields | src/compiler/compute_codegen.cpp:115-121 | The Metal atomic at a byte offset and the GLSL atomic in the 8-byte view both do what the interpreter's atomic does to the 4-byte view of the buffer. |
| ComputeKernels.StoreYields | src/compiler/compute_codegen.cpp:110-114 | The emitted word store does what the interpreter's store does. |
| ComputeKernels.EmittedFollows | src/compiler/compute_codegen.cpp:44-180 | The statements are those of the instructions that are not reference loads, in program order: each reads, writes or adds at the instruction's own offset of its own allocation's buffer, what it writes is the low byte of the value four times over, and what it adds is the value modulo 2^64. |
| ComputePackages.EmittedIsFaithful | src/compiler/compute_codegen.cpp:44-180 | Statements emitted over exact rows are faithful in both dialects. |
| ComputePackages.EmitLinear | src/compiler/compute_codegen.cpp:99-123 | The linear emitter's loop emits the lowering of every instruction in both dialects. |
| ComputePackages.EmitPointerGraph | src/compiler/compute_codegen.cpp:44-60 | The pointer-graph emitter elides reference loads and emits the rest. |
| ComputePackages.EmitIndexed | src/compiler/compute_codegen.cpp:162-177 | The indexed emitter addresses each instruction's table row. |
| ComputePackages.BindAscending | src/compiler/compute_package.cpp:116-117 | Numbers the allocations of a set from zero in ascending order. |
| ComputePackages.FindBinding | src/compiler/compute_codegen.cpp:101-102 | Finds the binding of an allocation. |
| ComputePackages.CollectLinear | src/compiler/compute_package.cpp:104-111 | Accepts exactly supported instructions and collects exactly the allocations they reference. |
| ComputePackages.CollectPointer | src/compiler/compute_package.cpp:78-83 | Accepts exactly supported instructions and collects the allocations of all but reference loads. |
| ComputePackages.FirstSeenRows | src/compiler/compute_package.cpp:141-153 | Rows are exactly the referenced allocations in order of first use, and every instruction has its row's index. |
| ArenaStore.Arena.Allocate | src/core/arena.cpp:32-41 | Zeroed backing under the next id, and a new topology epoch. |
| ArenaStore.Arena.Import | src/core/arena.cpp:43-61 | Refuses zero identity or size, mismatched bytes and known ids; otherwise adds exactly that allocation. |
| ArenaStore.Arena.Retire | src/core/arena.cpp:63-72 | Retires exactly a live allocation without uses in flight, and moves its generation on, so that the reference is out of date. |
| ArenaStore.Arena.Acquire | src/core/arena.cpp:102-107 | One more use of a live allocation. |
| ArenaStore.Arena.Release | src/core/arena.cpp:109-114 | One less use of a live allocation in use. |
| ArenaStore.Arena.Transform | src/core/arena.cpp:116-130 | Moves the epoch of a live allocation without uses on by one, within the representation budget. |
| ArenaStore.Arena.ReleaseRepresentation | src/core/arena.cpp:137-147 | Drops a superseded representation, never the last. |
| ArenaStore.Arena.ConsumeRepresentation | src/core/arena.cpp:149-169 | With a complete proof and no uses, releases the bytes and keeps the allocation. |
| ArenaStore.Arena.Consume | src/core/arena.cpp:171-191 | With a complete proof and no uses, retires the allocation, releases its bytes and puts the reference out of date. |
| Facets.FacetPool.Acquire | src/core/facet.cpp:105-126 | Issues a token for a valid target that resolves at once, reusing a free slot under its current generation if there is one. |
| Facets.FacetPool.Retire | src/core/facet.cpp:144-151 | Retires exactly the slot an active token of the right generation names. |
| Facets.FacetPool.RetireAt | src/core/facet.cpp:223-231 | Kills the token at once and frees the index only when no use is outstanding. |
| Facets.FacetPool.RetireStale | src/core/facet.cpp:153-164 | Retires exactly the stale slots and counts them. |
| Facets.FacetPool.BeginGpuUse | src/core/facet.cpp:166-176 | Counts a use of a token that resolves. |
| Facets.FacetPool.EndGpuUse | src/core/facet.cpp:178-193 | Ends a use under the generation it began under, and frees a retired slot with its last use. |
| Facets.FacetPool.ValidateTarget | src/core/facet.cpp:84-103 | Accepts exactly valid shapes over an active allocation of the view's generation that is at least as large as the byte size modulo 2^64, depth only as attachment and the integer formats only as address. |
| Facets.TargetBacksExactly | src/core/facet.cpp:96-101 | All texels of an accepted target lie inside its allocation exactly when its size fits 64 bits. |
| Facets.VastViewAccepted | src/core/facet.cpp:96-101 | A view of 2^31 by 2^31 four-byte texels has a size of 2^64, is accepted over any live allocation of generation 1, and has texels outside it. |
| Facets.VastArrayCollides | src/backends/reference/reference_executor.cpp:151-155 | An accepted view of twice that size, over which the executor finds the first texel of the second layer at the address of the first texel of the first. |
| Facets.IssuedValid | src/core/facet.cpp:105-126 | Acquiring keeps the pool invariant: the free list holds, without duplicates, exactly the inactive slots without outstanding uses. |
| Facets.RetireSlotValid | src/core/facet.cpp:223-231 | Retiring keeps the pool invariant. |
| Facets.SweptMeaning | src/core/facet.cpp:153-164 | A sweep retires exactly the stale slots and leaves the others alone. |
| Facets.BegunValid | src/core/facet.cpp:166-176 | Beginning a use keeps the pool invariant. |
| Facets.EndedValid | src/core/facet.cpp:178-193 | Ending a use keeps the pool invariant. |
| Capabilities.RunsAreValid | src/core/facet.cpp:105-231 | In every state of every run the issued tokens are pairwise distinct, the free list is exact and only issued tokens resolve. |
| Capabilities.TokensNeverRevive | src/core/facet.cpp:128-142 | In no run does an issued token that has stopped resolving ever resolve again. |
| Capabilities.UsesSeeOneFacet | src/core/facet.cpp:166-193 | While uses of a slot are outstanding its view, kind and epoch do not change, even across retirement. |
| Capabilities.ApplyKeepsValid | src/core/facet.cpp:105-231 | Every call on the arena or the pool keeps the capability invariant. |
| Capabilities.DeadStaysDead | src/core/facet.cpp:128-142 | No single call makes a dead token resolve. |
| Capabilities.OutstandingUsePinsSlot | src/core/facet.cpp:166-231 | No single call changes what a slot in use stands for, or the generation its uses began under. |
| Capabilities.ArenaProgresses | src/core/arena.cpp:63-191 | No call removes or revives an allocation or lowers its epoch. |
| TokenLifetimes.DiesExactly | src/core/facet.cpp:128-142 | One call kills a token that resolves exactly if it retires that token, or transforms, retires or consumes the idle allocation behind it; otherwise the slot keeps the view, kind and epoch it stands for. |
| TokenLifetimes.TokensStandForOneRepresentation | src/core/facet.cpp:128-142 | In every run a token that resolves in two states resolves in all between, and stands for one view and kind of one representation throughout, which is the allocation's current one. |
| TokenLifetimes.RunsStayInBudget | src/core/arena.cpp:116-147 | In every run an active allocation has at least one representation and never more than the budget. |
| TokenLifetimes.TopologyTells | src/core/arena.cpp:32-72 | Whatever becomes live or dead, the topology epoch moves on. |
| TokenLifetimes.ClockTells | src/core/arena.cpp:116-191 | Whatever happens to an allocation's representations or bytes, the clock moves on. |
| TokenLifetimes.AllocationsAreNew | src/core/arena.cpp:32-61 | Below wrap-around a new allocation never takes an identity that was ever in use, imported ones included. |
| CanonicalViews.EveryByteInCell | src/core/facet.cpp:20-50 | Every byte of a view belongs to some texel. |
| CanonicalViews.CellsDisjoint | src/core/facet.cpp:20-50 | No byte belongs to two texels, so layers, levels, rows and texels tile the bytes. |
| CanonicalViews.CellInBounds | src/core/facet.cpp:36-50 | Every texel lies inside the view's bytes. |
| CanonicalViews.TexelByteOffset | src/backends/reference/reference_executor.cpp:151-155 | The executor's address of a texel is the texel's offset modulo 2^64, for every texel of every view. |
| CanonicalViews.AddressesExactly | src/backends/reference/reference_executor.cpp:151-155 | The executor addresses every texel of a valid view exactly if and only if the view's size is at most 2^64. |
| CanonicalViews.LastCell | src/core/facet.cpp:36-50 | The last texel ends where the view's bytes end. |
| CanonicalViews.CellsAscend | src/core/facet.cpp:36-46 | Texels are laid out by layer, then level, then row, then column; tiling the bytes as they do, they can stand nowhere else. |
| CanonicalViews.MipExtents | src/core/facet.cpp:20-35 | A level's extent is the shape's divided by a power of two and rounded down, but at least one texel. |
| CanonicalViews.SubresourceByteOffset | src/core/facet.cpp:36-46 | The accumulating loops compute the subresource offset modulo 2^64. |
| CanonicalViews.DeepestChain | src/core/facet.cpp:61-67 | The validity loop terminates with one more than the binary logarithm of the larger extent, at most 32. |
| CanonicalViews.Log2Bounds | src/core/facet.cpp:61-67 | That logarithm is the rounded-down one. |
| CanonicalViews.CheckValid | src/core/facet.cpp:52-70 | Accepts exactly shapes without a zero extent, with one layer unless they are arrays, whose last level is reached by halving the larger extent no further than to one texel. |
| LifetimeHolds.SubmissionLifetimeHold.Acquire | src/backends/device_hal.cpp:618-689 | Acquires exactly the planned and new facets and the allocations behind them, or restores every count; succeeds exactly when all uses agree on kinds and resolve and every allocation is live. |
| LifetimeHolds.SubmissionLifetimeHold.Release | src/backends/device_hal.cpp:691-703 | Gives back exactly what was acquired; no ignored release result can be a failure. |
| LifetimeHolds.AcquireBoth | src/backends/device_hal.cpp:656-687 | Raises all counts, or on the first allocation that is not live undoes the ones raised. |
| LifetimeHolds.LoweredRaised | src/backends/device_hal.cpp:691-703 | Releasing undoes acquiring exactly. |
| LifetimeHolds.EndedAllMeaning | src/backends/device_hal.cpp:692-694 | Ending outstanding uses one after another lowers each count once and keeps the free list exact. |
| LifetimeHolds.SortUniqueFacets | src/backends/device_hal.cpp:69-83 | Sorted, duplicate-free uses; fails exactly when one token is listed with two kinds. |
| LifetimeHolds.SortUniqueAllocations | src/backends/device_hal.cpp:64-67 | The same allocations, sorted and duplicate-free. |
| LifetimeHolds.Backings | src/backends/device_hal.cpp:638-655 | Succeeds exactly when every use resolves with its kind, and adds exactly the allocations behind them. |
| HoldConservation.RunsConserve | src/backends/device_hal.cpp:618-703 | Across any interleaving of holds, transforms, retirements and consumptions each in-flight count equals the number of holds naming that object. |
| HoldConservation.StepConserves | src/backends/device_hal.cpp:618-703 | Every step keeps those equalities. |
| HoldConservation.HeldIsPinned | src/core/arena.cpp:63-191 | No held allocation can be retired, transformed or consumed. |
| HoldConservation.ReleasesSucceed | src/backends/device_hal.cpp:691-698 | Whatever happened since a hold was acquired, each of its release calls succeeds. |
| HoldConservation.NothingHeldNothingCounted | src/backends/device_hal.cpp:691-703 | Once every hold is released all counts are zero and every inactive slot is free. |
| SubmissionLifetimes.BeginSubmission | src/backends/reference/reference_device_hal.cpp:283-305 | Preparing, committing and acquiring succeeds exactly when the preparation and the commit do, both judged on the state before anything is changed: after them the acquisition never fails. The hold then names exactly the touched and transformed allocations, the planned uses and the new facets, and on success and failure alike each in-flight count is the number of holds. |
| SubmissionLifetimes.Prepare | src/backends/device_hal.cpp:548-616 | Succeeds exactly when every planned use resolves with its kind over an allocation that no request transforms and every touched or transformed allocation is live; inventories exactly those allocations and uses, and changes nothing. |
| SubmissionLifetimes.AcquirableAfterCommit | src/backends/device_hal.cpp:618-655 | Once prepared, after a commit the planned uses and the new facets all resolve with their kinds and every inventoried allocation is live. |
| SubmissionLifetimes.AcquireHeld | src/backends/device_hal.cpp:618-689 | Acquiring a hold is a step of the run model or changes nothing; counts being numbers of holds, none of them wraps. |
| SubmissionLifetimes.ReleaseHeld | src/backends/device_hal.cpp:691-703 | Whatever happened since its acquisition, releasing a hold is a step of the run model. |
| SubmissionLifetimes.CountsFit | src/backends/device_hal.cpp:618-703 | While counts are numbers of holds, and those are fewer than 2^32 - 1, no count is about to wrap. |
| RepresentationCommit.CommitRepresentationOperations | src/backends/device_hal.cpp:366-526 | Succeeds exactly when the plan is empty, and then seals nothing, or there are as many operations as requests and every request could be committed on its own in the initial state. Then every returned facet resolves to its request's view, every transformed allocation is at exactly its source epoch plus one, no active facet is stale, the sealed epoch names exactly the new representations and is not stale, and tokens of other allocations resolve as before. No in-flight count moves either way. |
| RepresentationCommit.CommitOne | src/backends/device_hal.cpp:417-503 | One turn succeeds exactly when its request can be committed, and does not change which of the remaining ones can. |
| RepresentationCommit.OtherRequestsUnaffected | src/backends/device_hal.cpp:417-503 | Publishing one request does not change whether a request on another allocation can be committed, references held by facets included. |
| RepresentationCommit.ConsumeLeavesOthers | src/backends/device_hal.cpp:483-503 | Nor does consuming one. |
| RepresentationCommit.BesideNext | src/backends/device_hal.cpp:439-453 | Publishing a request keeps every live allocation live and every token of an allocation that no request transforms resolving. |
| RepresentationCommit.PublishRepresentation | src/backends/device_hal.cpp:420-454 | One request succeeds exactly when its operation is supported and of its order, its allocation is active, idle and at the source epoch and below the representation budget, a consumption finds no slot that is active or in use for the old representation, the target epoch is the next one and the target is valid; all facets that resolved afterwards still do. |
| RepresentationCommit.NoTokenForSuperseded | src/backends/device_hal.cpp:443-452 | After a commit no active facet names a superseded representation. |
| RepresentationCommit.CommitNext | src/core/execution_plan.cpp:84-95 | Because no allocation is transformed twice, earlier requests stay fulfilled. |
| RepresentationCommit.ConsumeKeepsCommitted | src/backends/device_hal.cpp:483-503 | Consuming the superseded bytes keeps every facet of the commit resolving. |
| RepresentationCommit.RepresentationEpochBuilder.AddFacet | src/core/representation.cpp:64-74 | Records a resolving facet and its representation, each once. |
| RepresentationCommit.RepresentationEpochBuilder.Seal | src/core/representation.cpp:76-85 | Freezes what was recorded, once. |
| Discovery.DiscoverReachable | src/core/access.cpp:106-178 | Finds exactly the least set that contains the seeds and is closed under live 12-byte references, each once, terminating on cycles; fails exactly on a malformed or dead seed; bytes scanned equal bytes found. |
| Discovery.ScanSlots | src/core/access.cpp:152-167 | Scanning one allocation's slots finds every live reference it stores. |
| Discovery.AdmitSeeds | src/core/access.cpp:120-133 | Admits the seeds, each once, exactly when all are well-formed and live. |
| Discovery.SearchDone | src/core/access.cpp:138-169 | With an empty worklist what was found is exactly what is reachable. |
| Discovery.PointsToExactly | src/core/access.cpp:90-97 | A reference is followed exactly where the twelve bytes of the packed reference fill a slot. |
| Captures.CaptureAndReplay | src/capture/capture.cpp:205-361 | An untampered capture passes replay's rediscovery comparison exactly when nothing it reached is empty or has had its bytes consumed. |
| Captures.EmptyNotReplayable | src/capture/capture.cpp:322-333 | In any arena with an identity left, a capture seeded with a new empty allocation succeeds and cannot be replayed. |
| Captures.ConsumedNotReplayable | src/capture/capture.cpp:322-331 | A capture that reaches an allocation whose bytes have just been consumed cannot be replayed. |
| Captures.ConsumedBehindReference | src/capture/capture.cpp:322-331 | An arena of two allocations, the first holding a packed reference to the second: its capture can be replayed until the second one's bytes are consumed, and then no longer, though it can still be made. |
| Captures.ReachableIsActive | src/core/access.cpp:156-167 | From active seeds only active allocations are reached. |
| Captures.RediscoveryAgrees | src/capture/capture.cpp:339-361 | The restored memory reaches exactly what the original did. |
| Captures.AttachDiscovery | src/capture/capture.cpp:205-228 | Keeps the snapshots of exactly the reached allocations. |
| Captures.ReplayDiscovery | src/capture/capture.cpp:311-361 | Restoring and rediscovering succeeds for an untampered capture exactly when every snapshot can be restored. |
| Captures.RestoreAll | src/capture/capture.cpp:326-333 | Restores every snapshot, or fails on one that is empty or consumed. |
| Captures.MakeCapture | src/capture/capture.cpp:197-203 | One faithful snapshot per allocation. |
| Json.ParseCanonical | src/ir/json.cpp:17-46 | Parsing undoes printing for every value with ordered keys whose strings hold no control character but newline, carriage return and tab: key order, escapes and the full signed 64-bit range included. |
| Json.PrintInjective | src/ir/json.cpp:43-46 | Different values are printed differently. |
| Json.ReadsBack | src/ir/json.cpp:24-43 | A printed value is read back from the front of any text that continues as a document can. |
| Json.BodyReadsBack | src/ir/json.cpp:38-42 | A string reads back through its escapes. |
| Json.NumberReadsBack | src/ir/json.cpp:39-39 | Every signed 64-bit number reads back. |
| Json.EntriesReadBack | src/ir/json.cpp:33-34 | The entries of an object read back in order. |
| Json.ParsedIsWellFormed | src/ir/json.cpp:33-34 | Every parsed value keeps its keys in order. |
| Json.CanonicalisingIsIdempotent | src/ir/json.cpp:45-46 | Printing what was parsed and parsing it again changes nothing. |
| Json.EmplaceAscends | src/ir/json.cpp:33-34 | Inserting keeps the keys in order. |
| Json.FindMapOf | src/ir/ir.cpp:8-8 | Looking a key up in a map is looking it up in the list it was made from. |
| JsonLayouts.LayoutParses | src/ir/json.cpp:17-46 | However a document is laid out, with any white space between its tokens, keys in any order and repeated keys, it is read as the value it is a layout of; of equal keys the first counts. |
| JsonLayouts.GapsDoNotMatter | src/ir/json.cpp:17-46 | White space makes no difference: a laid-out document reads as its value's canonical text does. |
| JsonLayouts.EscapesRead | src/ir/json.cpp:38-38 | The eight escapes stand for their characters, and no other letter may follow a backslash. |
| JsonLayouts.NumberExactly | src/ir/json.cpp:39-39 | Digits are a number exactly if no fraction or exponent follows and it fits 64 bits with its sign. |
| JsonLayouts.ControlRefused | src/ir/json.cpp:38-38 | No string holds a control character as it is. |
| JsonLayouts.TrailingRefused | src/ir/json.cpp:17-23 | Nothing but white space may follow a document. |
| JsonText.ParseText | src/ir/json.cpp:45-45 | The recursive-descent parser returns exactly what the grammar functions specify. |
| JsonText.Parser.ValueAt | src/ir/json.cpp:24-32 | A value is read from the cursor and the cursor moved past it, as specified. |
| JsonText.Parser.ArrayAt | src/ir/json.cpp:35-36 | The array loop reads the items the specification reads. |
| JsonText.Parser.ObjectAt | src/ir/json.cpp:33-34 | The object loop reads the entries the specification reads; the first of several equal keys wins. |
| JsonText.Parser.StringBody | src/ir/json.cpp:38-38 | The string loop reads the characters the specification reads. |
| JsonText.Parser.NumberAt | src/ir/json.cpp:39-39 | Digits, range and the refusal of fractions are as specified. |
| JsonText.Canonical | src/ir/json.cpp:46-46 | Printing fails exactly on a control character other than newline, carriage return and tab, and its text parses back to the value. |
| JsonText.WriteTo | src/ir/json.cpp:43-43 | Appends exactly the value's text. |
| JsonText.AppendEscaped | src/ir/json.cpp:42-42 | Appends exactly the escaped string, or fails on a control character it cannot escape. |
| IrText.SerializeParseSerialize | src/ir/ir.cpp:26-40 | Serialising, parsing and serialising again gives the same text, for every module that can be serialised and whose unsigned fields are below 2^63. |
| IrText.TextRoundTrip | src/ir/ir.cpp:26-40 | The text of a module that can be serialised is always a document, and is accepted, as the module without its unused fields, exactly when its unsigned fields are below 2^63. |
| IrText.CanonicalTextIsAccepted | src/ir/ir.cpp:33-33 | Whatever text is accepted, the canonical text computed for it is accepted as the same module, without its unused fields. |
| IrText.ReadFits | src/ir/ir.cpp:9-9 | No document yields an unsigned field of 2^63 or more. |
| IrText.HighLoadNotAccepted | src/ir/ir.cpp:35-36 | A module with one load at offset 2^63 is verified and has a canonical text, and that text is a document that is not accepted. |
| IrText.ModuleRoundTrip | src/ir/ir.cpp:26-40 | A module reads back, without the fields its operations do not use, exactly when its unsigned fields are below 2^63. |
| IrText.InstructionRoundTrip | src/ir/ir.cpp:30-36 | The same for one instruction. |
| IrText.EffectRoundTrip | src/ir/ir.cpp:13-14 | The same for one effect. |
| IrText.PointerEdgeRoundTrip | src/ir/ir.cpp:15-16 | The same for one pointer edge. |
| IrText.VerifiedSurvives | src/ir/ir.cpp:64-80 | Verification accepts a module exactly when it accepts what is read back. |
| IrMeaning.NormalizedExecutes | src/ir/ir.cpp:35-40 | A module and what is read back from its text execute alike on every memory: bytes, trace, fault and poison. |
| IrMeaning.TextTellsModules | src/ir/ir.cpp:35-40 | Two modules that can be serialised and read back have the same text exactly when they differ at most in the value of an instruction that is no store and no atomic or in the operand of one that dereferences nothing. |
| IrText.WrittenNames | src/ir/ir.cpp:11-12 | The names by which operations and accesses are written. |
| IrText.InstructionFields | src/ir/ir.cpp:36-36 | The fields of a written instruction: a value for stores and atomics only, a reference operand for dereferences only, a source note if there is one. |
| IrText.EffectFields | src/ir/ir.cpp:14-14 | The five fields of a written effect. |
| IrText.PointerEdgeFields | src/ir/ir.cpp:16-16 | The three fields of a written pointer edge. |
| IrText.ModuleFields | src/ir/ir.cpp:39-39 | The six fields of a written module. |
| IrText.SerializeModule | src/ir/ir.cpp:35-40 | Succeeds exactly when every string can be printed, with the printed document. |
| IrText.WritableExactly | src/ir/json.cpp:42-43 | A module can be serialised exactly when its schema name, its operation names and its source notes hold no control character but newline, carriage return and tab. |
| IrText.ParseModule | src/ir/ir.cpp:26-34 | Accepts exactly the documents that satisfy the field rules and yield a module that can be serialised, and yields that module. |
| RingSteps.RunsAreValid | src/core/task_graph.cpp:10-76 | In every interleaving of clients: each slot being written has one owner or is a lost claim, a published task is its owner's, and no slot is consumed twice. |
| RingSteps.PublishedForGood | src/core/task_graph.cpp:31-54 | A slot never becomes empty again after it was published, and keeps its task. |
| RingSteps.NoOverflow | src/core/task_graph.cpp:10-21 | However steps interleave, no client of a ring with at least as many slots as clients fails, while tasks are well-formed, the ring has at most 2^31 slots and the slot counter plus capacity stays within 2^32. |
| RingSteps.ClaimLostExactly | src/core/task_graph.cpp:68-71 | A claim is lost, its slot held by no client, exactly when its index is 2^31 or more. |
| RingSteps.LostForGood | src/core/task_graph.cpp:10-76 | No step ever frees a lost slot. |
| RingSteps.LostInRun | src/core/task_graph.cpp:10-76 | A lost slot stays lost for the rest of any run. |
| RingOverflow.LastClientOverflows | src/core/task_graph.cpp:10-76 | A run from an empty ring of 2^31 + 1 slots with the counter at zero, in which as many clients publish well-formed tasks one after another: the last one fails and its slot is lost. |
| RingOverflow.FillingStep | src/core/task_graph.cpp:10-54 | Each step of that run is the next atomic access of the client in turn. |
| RingOverflow.LastClaimIsLost | src/core/task_graph.cpp:18-18 | The last claim comes back negative, so the client fails and nobody holds the slot. |
| RingSteps.FailureMeansFull | src/core/task_graph.cpp:10-21 | A client that gives up has seen a ring in which other clients hold every slot. |
| RingSteps.PublishedIsOwners | src/core/task_graph.cpp:40-45 | The task acquired from a published slot is the one its single publisher wrote. |
| RingSteps.OwnersSucceed | src/core/task_graph.cpp:68-76 | No other client makes an owner's write or publish fail; only ill-formed tasks are aborted. |
| RingSteps.HandedOverStays | src/core/task_graph.cpp:31-54 | No step undoes a hand-over. |
| RingSteps.ClientStepValid | src/core/task_graph.cpp:10-76 | Every atomic step of a client keeps the ring invariant. |
| PublicationRings.PublicationRing.Reserve | src/core/task_graph.cpp:10-21 | Claims the first empty slot of the scan, leaves the others alone and returns its index as a signed 32-bit number, so from 2^31 on a negative one; -1 when the scan finds none. |
| PublicationRings.FirstEmptyMeaning | src/core/task_graph.cpp:13-20 | Every slot tried before the one claimed is taken. |
| PublicationRings.NoneMeansFull | src/core/task_graph.cpp:13-20 | Without wrap-around a scan finds nothing only in a full ring. |
| PublicationRings.PublicationRing.PublishTask | src/core/task_graph.cpp:68-76 | Publishes exactly a well-formed task, into the first empty slot if that is below 2^31; otherwise leaves all slots as they were, except that a first empty slot from 2^31 on is left in the writing state. |
| PublicationRings.PublishInOrder | src/backends/reference/reference_executor.cpp:114-122 | Publishing and consuming as many tasks as there are slots succeeds exactly when every task is well-formed and there are at most 2^31 of them, and publishes them in order. |
| GraphExecution.GraphOrder | src/core/task_graph.cpp:216-241 | The ready-list loop over a graph's dependencies, repeated ones included, succeeds exactly when they are acyclic, with their canonical order. |
| GraphExecution.ExecuteTaskGraph | src/backends/reference/reference_executor.cpp:104-124 | Execution succeeds exactly when the graph is published, every task is well-formed, the dependencies are acyclic and there are at most 2^31 tasks; the tasks come out in the canonical order. |
| GraphExecution.ExecuteSealed | src/core/task_graph.cpp:173-241 | A graph that the builder sealed can always be ordered, its repeated edges notwithstanding, and its execution fails only for an ill-formed task or more than 2^31 tasks; the order is the canonical one of the declared dependencies and all conflicting pairs, so of two conflicting tasks the one of lower index comes first. |
| PublicationRings.ScanCovers | src/core/task_graph.cpp:13-15 | Without wrap-around a full scan tries every slot. |
| Envelopes.ApplyEnvelopeContinuation | src/backends/envelope_stage.cpp:44-121 | Publishes the whole order, a prefix with the rest parked, or a parked list, or refuses and leaves the table unchanged, each exactly in its case. |
| Envelopes.SplitThenDrain | src/backends/envelope_stage.cpp:69-118 | A split followed by a drain with the same plan publishes exactly the canonical order. |
| Envelopes.DrainedAtMostOnce | src/core/envelope.cpp:49-79 | Below wrap-around no token is drained twice. |
| Envelopes.SubmissionKeepsBooks | src/core/envelope.cpp:49-79 | A split parks under a token that is non-zero and was never used, and a drain hands out a list parked by one split and not handed out before. |
| Envelopes.DrainedIsSuffix | src/backends/envelope_stage.cpp:23-41 | A drained list is a suffix of the presenting plan's order. |
| Envelopes.LeftoverMatchesSchedule | src/backends/envelope_stage.cpp:23-41 | Accepts exactly suffixes of the order that name known tasks. |
| Envelopes.EnvelopeContinuationTable.Mint | src/core/envelope.cpp:49-55 | Parks a non-empty list under a non-zero token. |
| Envelopes.EnvelopeContinuationTable.Take | src/core/envelope.cpp:76-81 | Hands out a parked list and forgets it. |
| PipelineKeys.CanonicalExact | src/compiler/pipeline_classification.cpp:49-61 | Two pipeline keys have the same canonical text exactly when they are the same key up to the order of constants and raster state. |
| PipelineKeys.ClassifyPipelineState | src/compiler/pipeline_classification.cpp:75-135 | Accepts exactly blocks that all can be expressed and agree per name, folds each new name into the key once, and lists the blocks of each other kind in their order. |
| PipelineKeys.OfKindMeaning | src/compiler/pipeline_classification.cpp:75-135 | Those lists hold each block of their kind as often as it is given, and no other. |
| PipelineKeys.ClassificationIgnoresOrder | src/compiler/pipeline_classification.cpp:75-135 | The accepted key's canonical text does not depend on the order of the blocks. |
| PipelineKeys.PipelineClassificationCache.Acquire | src/compiler/pipeline_classification.cpp:137-194 | Whatever the digest function, a pipeline is served only for the text it was created for; a colliding key is refused and nothing cached is lost; a miss is counted exactly when the digest is unknown and there is a callback to ask. |
| PipelineKeys.ServedTogetherExactly | src/compiler/pipeline_classification.cpp:137-160 | Two keys are served by one cached pipeline exactly when they are the same key. |
| PipelineKeys.AscendingUnique | src/compiler/pipeline_classification.cpp:15-21 | A multiset of pairs has one sorted listing. |

## Left out

- Raster tasks inside the submission loop: shading, sampling and scene transforms are floating point; only the integer
  addressing of views is modelled.
- Timelines, waits and signals; the reference backend passes an empty gate to the executor.
- The access witness, content epochs and copies into and out of allocations: bookkeeping beside the bytes.
- Error message strings, lowering reports, wall-clock times and capability gating.
- Metal and Vulkan back ends, the C interface layer, the schema generator and the Python tools.
- SHA-256 and the fields derived from it: canonical hashes are not part of a module, and the pipeline cache is proved for
  an arbitrary digest function.
- ForkJoin and LinearChain classification of effect graphs: an observation about shape that no modelled step consumes.
- The text of generated kernels, and their source maps: statements are modelled as a datatype.
- Signed overflow in the interpreter's 64-bit addition is undefined in the source language; the model wraps, as the
  generated kernels do.
- Graph epochs in replay, and the serialisation of captures: replay is modelled up to the rediscovery comparison.
- Plan identity of continuation tokens: the table stores indices only, and a submission may still fail after taking a
  token; the conservation results are about the helper.
- The derivation of a plan's lifetime facts: preparing a hold starts from the touched allocations and the facet uses.
- Atomic memory orders: the ring's accesses interleave sequentially.
- Hash-map iteration order: where the source iterates a hash map the model leaves the order open.
- ReferenceSubmit.SubmitSchedule: the trace and the list of uncovered effects follow the order in which tasks are entered,
  not the canonical order, because the source appends them in that order.
- RepresentationCommit.CommitRepresentationOperations: after a failure the model says only that the pool is still valid
  and that no in-flight count has moved, because the source does not roll the arena and the pool back.
- Capabilities.TokensNeverRevive: holds while slot generations and representation epochs do not wrap; after 2^32
  retirements of one slot a token could repeat.
- Discovery.DiscoverReachable: byte totals are unbounded sums, and the arena's topology is constant during the walk.
