# A verified model of the RTLola stream compiler and interpreter

RTLola compiles a stream specification into layered equations, bounded buffers and a periodic
schedule, and then runs them on a log of events. This project models the logic of that pipeline
in Dafny and proves that its efficient forms agree with simple ones:

* **Evaluation.** Outputs are evaluated layer by layer, past values live in bounded deques, and a
  freshness set shifts past lookups. `Histories` gives the declarative reading over full, unbounded
  histories (`x[-k]` is the `k`-th most recent value strictly before the step), and proves that the
  machine computes exactly that, for every run. `OneStep` proves that any two admissible orders of a
  step agree; `Closures` and `CompiledRuns` that the closure compiler means the same as the
  interpreter; `Activations` that the bit-set form of an activation condition means the condition.
  `Meanings` says what every construct and every lookup answers, in terms of its parts and histories.
* **Types.** `Expressions` proves preservation and progress of typed expressions, `TypedRuns` and
  `TypedWindows` that buffers, logs and windows hold values of their types, `TypedTraces` that the
  equations of a typed specification always have a solution, and `Progress` and `AcceptedPrograms` when
  the evaluator gets through the runs of an accepted, typed program with total operators.
* **Projections.** `Pruning` proves that entries that are projected away never change a value, and
  `LateReads` and `PerformedReads` which of their reads make the evaluator panic.
* **Sliding windows.** `Windows` proves that the rotating deque of 64 partial aggregates holds the
  oldest-first fold of exactly the samples in its buckets, and `Aggregations` that each aggregate
  (including the order-sensitive integral) is lawful and what it computes. `WindowRuns` replays any
  log of accepts and updates; `SpecWindows` ties the deques to the windows of an evaluator's run, and
  `WindowKinds` says what the window of each aggregation and number type reports.
* **Schedule and replay.** `Rationals`, `Clocks`, `Schedules` and `ScheduleCycles` cover the gcd and
  lcm of rational periods, the sieve, its condensation and the truncation of pauses; `Controller`
  proves that an offline run is the unique merge of the events with the infinite deadline cycle;
  `Replays` says what is due at every deadline of that cycle and how late it is, `ProgramReplays` when a
  program's outputs are evaluated, in terms of their frequencies, and `ZeroPauses` and
  `OneFrequency` which schedules have zero pauses. `InferredClocks` and `NormalizedClocks` cover the
  inference of activation conditions and the replacement of outputs in them.
* **Graph analyses.** `Cycles` (circuit search with blocking lists), `Paths` (parallel edges),
  `CycleCheck`, `ComputeGraphs` and `Layering` (evaluation order), `BufferSizes`, `Reachability`;
  `Accesses` says which edges a program has, exactly.
* **The whole.** `Lowering`, `Pipeline` and `Offline` put the analyses together: from a checked program
  to the specification the evaluator runs, its schedule and its offline run; `LoweredPrograms` says what
  lowering keeps and that buffers have the least size. `FreshAccesses` proves
  that accepted synchronous accesses are always fresh. `Example`, `CountingWindow` (which reads a
  window) and `HeldProjection` are small programs with their runs on any typed events;
  `ProjectedReads`, `TriggerWindow` and `TwoGigahertz` are accepted programs on which the code fails.

## How to read it

Code that changes state is modelled as methods with loops, or as classes (`Stores.InstanceStore`,
`EvaluatorClass.Evaluator`, `Windows.WindowInstance`, `Cycles.CycleFinder`,
`Paths.PathEnumerator`); each method is proved against a specification function or outright. The
specification functions are: `Expressions.EvalExpr` for the tree interpreter
(interpreter/src/evaluator.rs, lines 331-551), `Closures.Compile` for the closure compiler
(interpreter/src/closuregen.rs, lines 31-365), `Evaluator.RunStep` and `Evaluator.EvalStream` for one
step and one output (interpreter/src/evaluator.rs, lines 154-279), `Stores.Pushed` and
`Stores.LookupPast` for the deque and the lookup (interpreter/src/storage/stores.rs, lines 121-139,
interpreter/src/evaluator.rs, lines 575-587), `Dependencies.EdgesOf` for the dependency edges
(frontend/src/analysis/graph_based_analysis/dependency_graph.rs, lines 221-332), and
`Histories.DeclarativeCtx` and `Histories.IsModel` for the declarative reading, which has no
counterpart in the code.

A specification's window is its target, what its deque reports after a log of accepts and updates,
and the aggregate it stands for; the specification also says which windows are linked to their
targets. The evaluator's state holds the log of every window, and a lookup asks the deque:
`WindowRuns.Report` replays the log on a new deque, by the functions that the methods of
`Windows.WindowInstance` are proved to compute. The declarative equations ask for the aggregate of the
values of the stream that informs the window. That the two agree (`Evaluator.Faithful`) is proved for
the deque of every lawful aggregation (`SpecWindows.DequeIsFaithful`). `Histories.Intended` is the
specification in which every window is linked, as the language says, and `Pruning.Pruned` the one in
which a projection out of a tuple literal is its entry; `Pipeline.Declared` is both.

A panic, a failed assertion or an unreachable branch is the outcome `Panic`. Synchronous lookups are
read as in a debug build: a target that is not fresh fails the assertion. Arithmetic operators,
library functions and numeric casts are parameters (`Expressions.Prims`), since both evaluators call
the same ones. Times are whole nanoseconds since the start.

## What turned out to be false of the code

* The circuit search starts only at the least node of each strongly connected component. It reports
  exactly the circuits through that node (`Cycles.ReportedIffThroughLeast`), so a zero-weight cycle
  that avoids it is accepted (`CycleCheck.AcceptedButCyclic`), and then the layering never ends
  (`Layering.EmptiesIffAcyclic`). Exactly: the same-instant accesses of an accepted graph are acyclic
  if and only if those between the streams that are least in no component are
  (`CycleCheck.AcceptedAcyclicIff`, the contract of `CycleCheck.CheckCycles`).
* A window that only a trigger reads is never linked to its target: windows are linked before triggers
  are lowered. It is updated but accepts nothing. For
  `trigger a && x.aggregate(over: 5s, using: count) > 3` the run on four values at once goes through
  without raising the alarm that the equations raise (`TriggerWindow.RunAlarm`), and the evaluator
  never raises it in any state it reaches, even if the run stops later (`TriggerWindow.AlarmSilent`). Exactly: over every run a window reports the
  aggregate of its target if and only if an output that is no trigger reads it, it still waits, or the
  target had no value in range (`SpecWindows.ReportsIntendedIff`, for aggregations that notice samples;
  `Lowering.LinkWindows` for what is linked).
* A projection out of a tuple literal, as in `(i, y).0`, adds no dependency edge for `y`, but the
  evaluator evaluates every entry. `ProjectedReads.ProjectionBreaksRefinement` gives an accepted
  program whose equations are solvable and on which the evaluator panics. Projections never change a
  value: whatever a run computes is what it would compute with every projection replaced by its entry
  (`Pruning.RunPruned`), and an expression depends on what it projects away only through panics
  (`Pruning.DroppedReadsOnlyPanic`). The exact condition: what an accepted, typed program says always
  has a solution (`AcceptedPrograms.DeclaredSolvable`); if its dropped synchronous reads are always
  performed, the evaluator gets through all its runs if and only if neither the layers nor a deadline
  have an output that reads synchronously an output evaluated after it
  (`AcceptedPrograms.AlwaysRunsIff`). For a single run, whatever is dropped: it goes through if and only
  if no output performs such a read in it (`AcceptedPrograms.AcceptedProgramProgresses`,
  `PerformedReads.RunGoesThroughIff`).
  Nothing comes too early if only past, last or optional values are projected away
  (`Progress.NothingLate`); so `(i, y.hold(or: true)).0` runs (`HeldProjection.RunHolding`).
* Pauses are truncated to whole nanoseconds, and on a zero pause the controller's assertion fails. A
  schedule has no zero pause if and only if any two periods have a greatest common divisor of at least a
  nanosecond (`ZeroPauses.PausesPositiveIff`; `Pipeline.PausesPositiveIffApart` for programs), and
  otherwise every run fails whose last event is not before the end of the first cycle
  (`Controller.AdvancesPastCycleIff`). No run of an output at two gigahertz goes through
  (`TwoGigahertz.RunFast`).
* The documentation calls the hyper period the least common multiple of the periods
  (frontend/src/ir/schedule.rs, line 35); the code also makes it a whole number of nanoseconds
  (`ScheduleCycles.FindHyperPeriod`).
* Compiled and interpreted forms differ on ill-typed expressions (`Closures.UntypedFormsDiffer`); on
  typed ones they agree.
* The implication check between activation conditions is sound. From a conjunction of streams to a
  stream or a conjunction of streams it decides the implication exactly
  (`Activations.ImpliesValidExact`); beyond that it is incomplete (`Activations.ImpliesValidIncomplete`).
* Clock inference can produce a condition on which the evaluator panics. For accessed clocks over
  inputs, conjoined in any number and simplified: exactly if an always-active clock is accessed after
  another clock, or is hidden in one, and exactly on the inputs that activate all accessed clocks
  (`InferredClocks.InferredPanicsIff`).
* In an annotated condition the name of an output is replaced by that output's condition, but only where
  it is met first; later it becomes `True`. With `(y && a) || (y && b)` the evaluator panics unless the
  first disjunct is true (`NormalizedClocks.RepeatedNamePanics`). Exactly: unless the whole condition has
  become `True`, its evaluation panics if and only if the declared condition, evaluated from left to right
  on the live inputs and outputs, reaches `True` or a name that was met before, and otherwise it gives what
  is declared (`NormalizedClocks.ConditionForPanicsIff`). Of conditions over streams, the result is over
  inputs if and only if the walk meets no name twice (`NormalizedClocks.NormalizedIff`).
* A window is documented to cover its duration. It forgets what is older if and only if the duration is at
  least 64 ns; below, its bucket width is zero, and it counts every sample after its start forever
  (`Windows.AgesOutIff`), once the code has rotated the deque for every number up to the largest 64-bit
  one, which the model takes in one count.
* The integral window converts the distance of two samples to seconds by dividing the subsecond
  nanoseconds by 10^8, so a fraction of a second counts tenfold. Over positive values it is the area under
  the samples if and only if consecutive samples are whole seconds apart, and otherwise it is too large
  (`WindowKinds.IntegralIsAreaIff`).

## Model

| member | source | states |
|---|---|---|
| Histories.EvaluatorRefines | interpreter/src/evaluator.rs:154-279 | for every run and every trace that satisfies the declarative equations over unbounded histories, the layered evaluator with bounded buffers and window deques does not panic and ends with exactly the newest values of every stream, the exact log of every window and every report of a trigger, repeated ones included |
| Histories.RunHasModel | interpreter/src/evaluator.rs:154-279 | conversely, every run the evaluator gets through has a trace that satisfies the equations |
| Histories.ModelUnique | interpreter/src/evaluator.rs:154-279 | the equations of a well-ordered specification have at most one solution over a run |
| Histories.RunsIffModelled | interpreter/src/evaluator.rs:154-279 | the evaluator gets through a run exactly if the declarative equations have a solution for it |
| Histories.LayersEvaluateActive | interpreter/src/evaluator.rs:195-212 | evaluating the layers is evaluating exactly the active outputs, in the order of the layers |
| Histories.EquationsCoincide | interpreter/src/evaluator.rs:553-592 | over the prepared stores, current, past and window lookups give the declarative equations |
| Histories.PastMeansKthRecent | interpreter/src/evaluator.rs:575-587 | a past lookup by `k` yields the `k`-th most recent value strictly before the step, also when an input has already been accepted in it |
| Histories.OperationsMeaning | interpreter/src/evaluator.rs:169-279 | over a trace in time order, what happens to a window (inputs accepted, then the update before the evaluation, then outputs accepted) is in time order from the start, ends at the last step, and accepts exactly the values, with their times, of the stream that informs it; nothing if it is not linked |
| Histories.LogIsHistory | interpreter/src/evaluator.rs:232-238 | whenever an output reads a window in a step, the window is up to date for that step and has accepted exactly what the equations aggregate |
| Histories.WindowAgrees | interpreter/src/evaluator.rs:589-592 | what the deque reports to an output is the aggregate over histories that the equations speak of |
| Histories.LinkedIsIntended | frontend/src/ir/lowering.rs:78-105 | if every window that is read is linked, a trace satisfies the equations exactly if it satisfies those in which every window is over its target |
| Meanings.LookupsMean | interpreter/src/evaluator.rs:408-437 | in a step after some others, a hold answers the last value of the history with this step, an optional access the value of this step or none, a synchronous one the value of this step or a panic, and a past lookup by `k` the `k`-th last value of the history before this step or none |
| Meanings.OtherLookupsPanic | interpreter/src/evaluator.rs:408-412 | lookups into the future, and lookups by a time, panic |
| Meanings.HistoryMeans | interpreter/src/evaluator.rs:256-271 | a history holds the values of its stream in the order of the steps, one for each step in which it has a value |
| Meanings.TimedHistoryMeans | interpreter/src/evaluator.rs:273-277 | the samples that windows aggregate are the values of the history, each with the time of its step |
| Meanings.WindowMeans | interpreter/src/evaluator.rs:589-592 | a lookup of a linked window answers its aggregate of the values of its target up to this step, its own value of this step excepted |
| Meanings.ReportsMean | interpreter/src/evaluator.rs:256-271 | a trigger is reported once for every step in which it is evaluated to true, with the time of the step, and not otherwise |
| OneStep.Confluence | interpreter/src/evaluator.rs:240-279 | two orders of the same outputs that respect same-instant accesses end in the same buffers, freshness sets, window contents and reports, or both panic |
| OneStep.PastObservesStart | interpreter/src/evaluator.rs:575-587 | a past lookup gives the same answer before and after its target has been evaluated in the step |
| OneStep.SolutionReached | interpreter/src/evaluator.rs:240-279 | any admissible order computes a given solution of the step's equations |
| OneStep.SolutionFound | interpreter/src/evaluator.rs:240-279 | whatever an admissible order computes solves the step's equations |
| OneStep.SolutionUnique | interpreter/src/evaluator.rs:240-279 | the equations of one step have at most one solution if some admissible order exists |
| EvaluatorClass.Evaluator.constructor | interpreter/src/evaluator.rs:75-143 | a new evaluator is in the initial state, with the activation condition of every output built |
| EvaluatorClass.Evaluator.EvalEvent | interpreter/src/evaluator.rs:154-167 | an event changes the evaluator in place exactly as the step function says (time assertion, cleared freshness, accepted inputs, update of all windows, layers), or panics when it does |
| EvaluatorClass.Evaluator.AcceptInputs | interpreter/src/evaluator.rs:176-193 | accepting the present inputs pushes them, marks them fresh and lets exactly the windows linked to them accept them |
| EvaluatorClass.Evaluator.EvalAllEventDrivenOutputs | interpreter/src/evaluator.rs:195-206 | updates all windows to the time of the event and then evaluates all layers in place as the layer function says |
| EvaluatorClass.Evaluator.PrepareEvaluation | interpreter/src/evaluator.rs:232-238 | every window is updated to the time of the evaluation, and nothing else changes |
| EvaluatorClass.Evaluator.EvalStream | interpreter/src/evaluator.rs:240-279 | one output: a trigger whose condition is true reports once more, every other output is stored and marked fresh, and windows linked to it accept its value |
| EvaluatorClass.Evaluator.EvalTimeDrivenOutputs | interpreter/src/evaluator.rs:214-238 | a deadline updates all windows, evaluates its due list in place and clears the freshness before and afterwards |
| Stores.InstanceStore.PushValue | interpreter/src/storage/stores.rs:132-139 | a push puts the value in front and drops the oldest one of a full buffer |
| Stores.InstanceStore.GetValue | interpreter/src/storage/stores.rs:121-130 | the value at an offset into the past, nothing beyond the buffer, and a panic for positive offsets |
| Stores.PushesRepresent | interpreter/src/storage/stores.rs:132-139 | whatever was pushed, a buffer of limit at least one holds exactly the newest values of the history |
| Stores.PastLookupMeaning | interpreter/src/evaluator.rs:575-587 | with room for `k + 1` values, the lookup by `k` is the `k`-th most recent value before the current one, whether or not the stream is fresh |
| Stores.PastLookupExact | interpreter/src/evaluator.rs:575-587 | what a past lookup by any 32-bit `k` answers: the cast to 16 bits makes it the value at `k % 65536`, or a panic if that is in the upper half or is zero for a stream that is not fresh |
| Stores.PastLookupIgnoresPush | interpreter/src/evaluator.rs:575-587 | pushing and marking as fresh leaves every past lookup unchanged |
| Stores.SmallerBufferFails | interpreter/src/storage/stores.rs:121-139 | with one value less than the analysis reserves, the asked value is lost |
| Expressions.EvalDependsOnReads | interpreter/src/evaluator.rs:331-551 | the value of an expression depends on the context only through its accesses |
| Expressions.EvalMatchesType | interpreter/src/evaluator.rs:331-551 | preservation: a typed expression yields a value of its type, or panics |
| Expressions.EvalProgresses | interpreter/src/evaluator.rs:331-551 | progress: if the synchronous targets are fresh, past values and windows are served, and the operators are total on their types, a typed expression yields a value of its type |
| Meanings.ConstantsMean | interpreter/src/evaluator.rs:334-340 | every constant evaluates to itself |
| Meanings.StrictMeans | interpreter/src/evaluator.rs:346-397 | a strict operator yields a value exactly if its operands do, the first is the first argument, and it is the operator's result on them |
| Meanings.LazyMeans | interpreter/src/evaluator.rs:361-371 | a conjunction is false without looking at its second operand if the first is false, and the second operand otherwise; dually for a disjunction; a first operand that is no boolean panics |
| Meanings.BranchMeans | interpreter/src/evaluator.rs:400-406 | a conditional is its first branch if the condition is true, its second if it is false, and otherwise a panic |
| Meanings.TupleMeans | interpreter/src/evaluator.rs:506 | a tuple holds the values of its entries in order |
| Meanings.ProjectionMeans | interpreter/src/evaluator.rs:543-549 | a projection yields exactly the entry at its position, and panics without one |
| Meanings.CallMeans | interpreter/src/evaluator.rs:443-504 | which functions exist, with how many arguments, and that they are applied to the values of their arguments in order |
| Meanings.ConversionMeans | interpreter/src/evaluator.rs:508-532 | a conversion is the cast of a value of its source type, is that value if the types are equal, and panics on other values |
| Meanings.DefaultMeans | interpreter/src/evaluator.rs:534-541 | a default yields the inner value unless there is none, and then the default |
| Meanings.LookupsHaveTypes | frontend/src/ty/check.rs:907-1194 | a synchronous access has the type of its stream, holds, optional accesses and past lookups its optional type |
| Meanings.BranchesHaveTypes | frontend/src/ty/check.rs:907-1194 | the type rules of conditionals and defaults, in both directions |
| Meanings.ProjectionsHaveTypes | frontend/src/ty/check.rs:907-1194 | and of projections |
| Meanings.ConversionsHaveTypes | frontend/src/ir/lowering.rs:430-450 | a conversion is between number types, from the type of its argument |
| Meanings.OperandsHaveTypes | frontend/src/ty/check.rs:907-1194 | the type rules of operators, calls and tuples, in both directions |
| Closures.CompiledIsInterpreted | interpreter/src/closuregen.rs:31-365 | for every typed expression the compiled closure, executed in any typed context, gives what the interpreter gives, including lazy operators, defaults, conversions and all lookups |
| Closures.NeverDifferentValues | interpreter/src/closuregen.rs:31-365 | even without types, the two forms never produce two different values |
| Closures.UntypedFormsDiffer | interpreter/src/closuregen.rs:31-365 | without types one form may panic where the other does not |
| CompiledRuns.RunsAlike | interpreter/src/evaluator.rs:121-125 | for a typed specification every expression compiles when the evaluator is built, and a whole run with compiled closures equals the run with the interpreter, panics included |
| TypedRuns.StreamTyped | interpreter/src/evaluator.rs:240-279 | evaluating an output of a typed specification keeps all buffers and window logs typed |
| TypedWindows.DequeTyped | frontend/src/ty/check.rs:1203-1277 | the deque of an aggregation that folds typed samples to values of a type never panics on typed values and reports values of that type, optional if it waits |
| TypedWindows.SumTyped | frontend/src/ty/check.rs:1218-1239 | a sum window over values of its target's type has the type the frontend infers; conjunction and disjunction are instances |
| TypedWindows.ExtremumTyped | frontend/src/ty/check.rs:1240-1248 | a minimum or maximum window has the optional type of its target |
| TypedWindows.AvgTyped | frontend/src/ty/check.rs:1240-1248 | an average window has an optional type, and it never divides by zero |
| TypedWindows.IntegralTyped | frontend/src/ty/check.rs:1262-1277 | an integral window over numbers of any type is a float, and its time-order assertion never fails |
| Activations.ConditionMeaning | interpreter/src/evaluator.rs:637-678 | the bit-set form and the general form of a condition over inputs both evaluate to its meaning |
| Activations.BuildCondition | interpreter/src/evaluator.rs:637-659 | the constructor loop builds the condition, with the bit set of its inputs |
| Activations.NestedTruePanics | interpreter/src/evaluator.rs:670-678 | a `True` below the top of a conjunction or disjunction is reached, and panics, exactly if the members before it do not decide the condition |
| Activations.ImpliesValidSound | frontend/src/ty.rs:234-249 | an accepted implication holds for every set of streams with a new value |
| Activations.ImpliesValidExact | frontend/src/ty.rs:234-249 | from a conjunction of streams to a stream or a conjunction of streams, the check accepts exactly the implications that hold for every set of new values |
| Activations.ImpliesValidIncomplete | frontend/src/ty.rs:234-249 | beyond that, three implications that always hold and are rejected: into a disjunction, from a stream to a conjunction, and from a conjunction to `True` |
| Activations.ImpliesValidIff | frontend/src/ty.rs:234-249 | what the check accepts: equal conditions; of a conjunction its members, and conjunctions of some of them; of any other condition only `True` |
| Activations.ConjoinMeaning | frontend/src/ty.rs:251-267 | the inferred conjunction holds exactly if both conditions hold |
| InferredClocks.InferredPanicsIff | frontend/src/ty/check.rs:443-468 | the condition inferred from any list of accessed clocks over inputs, folded and simplified by an order that puts `True` last, is built; it is false if some accessed clock is not active, and otherwise it is true, except that its evaluation panics exactly if an always-active clock comes after another clock or is hidden in one |
| InferredClocks.InferredRunnableIff | frontend/src/ty/check.rs:443-468 | the simplified inferred condition is over inputs without a nested `True` exactly if no always-active clock is hidden |
| InferredClocks.InferredAsGiven | frontend/src/ty/check.rs:1472-1491 | the evaluator is given that condition unchanged, as it names inputs only |
| NormalizedClocks.NormalizedIff | frontend/src/ty/check.rs:1503-1558 | for conditions over streams, the normalised and translated condition is over inputs without `True` exactly if the walk meets no name of an output twice, and it marks exactly the names it meets |
| NormalizedClocks.ConditionForMeaning | frontend/src/ty/check.rs:1472-1558 | then it holds of the live inputs exactly if the declared condition holds of the live inputs and outputs, where an output is live if its own condition holds |
| NormalizedClocks.ConditionForPanicsIff | frontend/src/ty/check.rs:1472-1558 | for any condition and any live inputs and outputs: a condition that has become `True` is always active; otherwise the evaluation panics exactly if the declared condition, evaluated from left to right, reaches `True` or a name of an output that was met before, and else it gives whether the declared condition holds; only an empty conjunction cannot be built |
| NormalizedClocks.RepeatedNamePanics | frontend/src/ty/check.rs:1503-1558 | a disjunction of `y && a` and `y && b`, with `y` a copy of an input, panics on exactly the inputs that do not make the first disjunct true |
| Windows.BucketsSinceExact | interpreter/src/storage/window.rs:173-199 | the circular computation is the true difference of bucket numbers, and it panics exactly if time runs backwards |
| Windows.WindowInstance.constructor | interpreter/src/storage/window.rs:202-217 | a new window of any duration is consistent with the empty history |
| Windows.WindowInstance.UpdateBuckets | interpreter/src/storage/window.rs:234-241 | advancing keeps every bucket the fold of its samples, computes the advanced deque, and fails exactly if the bucket lies in the past |
| Windows.WindowInstance.InvalidateN | interpreter/src/storage/window.rs:243-248 | rotates the deque by the number of passed buckets, for any number of them |
| Windows.WindowInstance.AcceptValue | interpreter/src/storage/window.rs:228-232 | accepting a value extends the history by it and keeps every bucket the fold of its samples |
| Windows.WindowInstance.GetValue | interpreter/src/storage/window.rs:220-226 | a waiting window answers `None` before its duration; otherwise, after an update to a time, the value is the oldest-first fold of exactly the accepted samples whose bucket number is among the last 64 |
| WindowRuns.ApplyAll | interpreter/src/storage/window.rs:219-248 | driving a window through any log gives the deque of the replayed log, or fails when the replay panics |
| WindowRuns.RunWindow | interpreter/src/storage/window.rs:202-258 | after any log of accepts and updates in time order on a new window, nothing panics, and the value read at the last time is `None` for a window that still waits, and otherwise the aggregate of exactly the accepted samples in the last 64 buckets |
| WindowRuns.ReportIsValue | interpreter/src/storage/window.rs:202-258 | the same of the replayed deque: what it reports when up to date is the aggregate of what the log has accepted |
| SpecWindows.DequeIsFaithful | interpreter/src/storage/window.rs:219-241 | the deque of every lawful aggregation, with any duration, reports its aggregate whenever it was updated to the time of the lookup |
| SpecWindows.DriveWindow | interpreter/src/evaluator.rs:232-238 | a new window driven by everything a run does to it does not panic and reports, at the time of the last step, what the declarative equations say of the stream that informs it |
| SpecWindows.AcceptsInOrder | interpreter/src/storage/window_aggregations.rs:194-220 | the values a window accepts in a run come in time order, as the integral asserts |
| SpecWindows.IntegralOfRun | interpreter/src/storage/window_aggregations.rs:179-232 | in every run the value of an integral window is the trapezoid sum over the values in the last 64 buckets of the stream that informs it |
| SpecWindows.ReportsSource | interpreter/src/evaluator.rs:189-193 | after every run a window reports the aggregate of the stream that informs it, of no values if it is not linked |
| SpecWindows.ReportsIntendedIff | frontend/src/ir/lowering.rs:78-105 | after every run a window reports the aggregate of its target exactly if it is linked, still waits, or its target had no value in range |
| SpecWindows.CountNotices | interpreter/src/storage/window_aggregations.rs:235-262 | a count of some samples is never the count of none, so the equivalence holds for every counting window |
| SpecWindows.ExtremumNoticed | interpreter/src/storage/window_aggregations.rs:265-342 | nor is a minimum or maximum over readable samples |
| SpecWindows.AverageNoticed | interpreter/src/storage/window_aggregations.rs:123-168 | nor is an average over readable samples |
| SpecWindows.WaitingIsNone | interpreter/src/storage/window.rs:220-226 | over every run, the equations give `None` for a waiting window before its duration |
| SpecWindows.WaitingReportsNone | interpreter/src/storage/window.rs:220-226 | and so does its deque, after any log |
| SpecWindows.InRangeExact | interpreter/src/storage/window.rs:220-258 | the samples in range are those of the history that are counted, in their order |
| SpecWindows.SumReports | interpreter/src/storage/window_aggregations.rs:8-40 | a sum window over readable samples reports the written total of the samples in range, or `None` while it waits |
| SpecWindows.AvgReports | interpreter/src/storage/window_aggregations.rs:123-168 | an average window reports the total of the samples in range divided by their number, and `None` for none or while it waits |
| SpecWindows.ExtremumReports | interpreter/src/storage/window_aggregations.rs:265-342 | a minimum or maximum window reports a sample in range that no other beats, and `None` for none or while it waits |
| WindowKinds.NewWindowIff | interpreter/src/storage/window.rs:47-69 | for which aggregations and types a window can be built, whatever option types are around: never for a product, for conjunction and disjunction only over booleans, for sum, average, minimum and maximum only over numbers |
| WindowKinds.WindowMeaning | interpreter/src/storage/window.rs:47-69 | what every such window says of typed samples in time order: `None` while it waits, and otherwise the number of the samples in range, their sum, average (rounded to zero for whole numbers), least or greatest value, conjunction, disjunction or trapezoid sum |
| WindowKinds.WindowFaithful | interpreter/src/storage/window.rs:47-69 | the deque of every such window reports what the window stands for |
| WindowKinds.RunReports | interpreter/src/storage/window.rs:47-69 | so after every run the deque of a window reports that meaning of the values of the stream that informs it |
| WindowKinds.SecondsRightIff | interpreter/src/storage/window_aggregations.rs:205-207 | the conversion of a duration to seconds is right exactly for whole seconds; a fraction counts tenfold |
| WindowKinds.IntegralIsAreaIff | interpreter/src/storage/window_aggregations.rs:194-220 | over positive samples the reported integral is the area exactly if consecutive samples are whole seconds apart, and otherwise it is larger |
| Windows.CombinedIsFold | interpreter/src/storage/window.rs:220-226 | combining the partial aggregates oldest first equals one fold over all their samples, for any associative summary whose neutral element is neutral on the right |
| Windows.WindowPrecision | interpreter/src/storage/window.rs:203-258 | a value aged at most 63 bucket widths is counted, and one aged at least 64 widths, hence at least the duration, is not |
| Windows.CountedIff | interpreter/src/storage/window.rs:203-258 | a sample is counted exactly if its bucket of 1/64 of the duration is at most 63 before the current one; for durations below 64 ns, exactly if it came after the start or nothing has passed since |
| Windows.AgesOutIff | interpreter/src/storage/window.rs:203-258 | a window counts no sample after its start that is as old as its duration exactly if the duration is at least 64 ns; below, it counts every such sample at every later time |
| Aggregations.CountMeaning | interpreter/src/storage/window_aggregations.rs:235-262 | the count window reports the number of samples |
| Aggregations.SumLawful | interpreter/src/storage/window_aggregations.rs:10-40 | the sum is associative with its neutral element on the right |
| Aggregations.SumMeaning | interpreter/src/storage/window_aggregations.rs:10-40 | the sum window reports the total of the samples, and panics exactly if some sample is not of its number type |
| Aggregations.ConjMeaning | interpreter/src/storage/window_aggregations.rs:42-80 | the conjunction aggregate folds to whether all samples are true |
| Aggregations.DisjMeaning | interpreter/src/storage/window_aggregations.rs:82-120 | the disjunction aggregate folds to whether some sample is true |
| Aggregations.ExtremumLawful | interpreter/src/storage/window_aggregations.rs:265-342 | minimum and maximum are associative with `None` as neutral element |
| Aggregations.ExtremumMeaning | interpreter/src/storage/window_aggregations.rs:265-342 | the reported value is a sample that no other sample beats, and `None` exactly for no samples |
| Aggregations.ExtremumSkipsNone | interpreter/src/storage/window_aggregations.rs:282-296 | a sample that is no value changes neither minimum nor maximum |
| Aggregations.AvgLawful | interpreter/src/storage/window_aggregations.rs:123-168 | the average summary is associative with its neutral element on the right |
| Aggregations.AvgMeaning | interpreter/src/storage/window_aggregations.rs:123-168 | the reported value is the total divided by the number of the samples, and `None` for none |
| Aggregations.IntegralLawful | interpreter/src/storage/window_aggregations.rs:179-232 | the order-sensitive integral is associative, with a neutral element on the right only |
| Aggregations.IntegralMeaning | interpreter/src/storage/window_aggregations.rs:179-232 | on samples in time order the reported value is the trapezoid sum over all consecutive samples |
| Aggregations.TrapezoidsAddUp | interpreter/src/storage/window_aggregations.rs:202-212 | the last piece of the sum is the mean of the last two values times their distance |
| Aggregations.ReadersExact | interpreter/src/storage/window.rs:271-322 | which values each number type accepts, and that they are read as the number they are |
| Aggregations.IntegralWindowMeaning | interpreter/src/storage/window_aggregations.rs:179-232 | the integral over the buckets of a window is the trapezoid sum over the samples in it, however they fall into buckets |
| Aggregations.IntegralBucketsNeverPanic | interpreter/src/storage/window_aggregations.rs:194-220 | folding the buckets of a window oldest first never fails the time-order assertion |
| Rationals.QuotientInteger | frontend/src/ir/schedule.rs:125-135 | the reduced quotient has denominator one exactly if the divisor measures the dividend, and then it is the factor |
| Rationals.RationalGcdUniversal | frontend/src/ir/schedule.rs:171-175 | gcd of numerators over lcm of denominators: a number measures it exactly if it measures both |
| Rationals.RationalLcmUniversal | frontend/src/ir/schedule.rs:177-181 | lcm of numerators over gcd of denominators: it measures a number exactly if both do |
| Rationals.RationalGcdAll | frontend/src/ir/schedule.rs:183-186 | the folded gcd is the greatest common divisor of all numbers |
| Rationals.RationalLcmAll | frontend/src/ir/schedule.rs:188-191 | the folded lcm is the least common multiple of all numbers |
| Rationals.GcdOrderIndependent | frontend/src/ir/schedule.rs:183-186 | the folded gcd does not depend on the order |
| Clocks.IsMultipleOfMeaning | frontend/src/ty.rs:275-285 | the check says exactly whether one frequency is an integer multiple of the other, and fails for a zero frequency |
| Clocks.InferredFreqGreatest | frontend/src/ty/check.rs:453-466 | the frequency inferred by folding the conjunction divides every accessed frequency, and is the greatest such |
| Clocks.InferredFreqOrder | frontend/src/ty/check.rs:453-466 | the inferred frequency does not depend on the order of the accesses |
| Clocks.AcceptedEventAccess | frontend/src/ty.rs:198-214 | if the reader of an accepted access is active, so is its event-driven target |
| Clocks.AcceptedPeriodicAccess | frontend/src/ty.rs:198-214 | a periodic access is accepted exactly if the target's period measures the reader's |
| Clocks.SameClockValid | frontend/src/ty.rs:198-214 | streams of one clock may access each other, an access between event-driven streams is accepted exactly if the conditions imply each other, and one between an event-driven and a periodic stream never is |
| Clocks.SimplifyMeaning | frontend/src/ty.rs:216-229 | sorting the members of a condition by any order and removing consecutive duplicates keeps its meaning, and an empty conjunction becomes `True` |
| Clocks.SimplifyDistinct | frontend/src/ty.rs:216-229 | sorted by a total order, the simplified condition has every member exactly once |
| Schedules.BuildExtendSteps | frontend/src/ir/schedule.rs:120-140 | one cell per gcd-sized step, each stream in the cell of its own number of steps; refused exactly for too many steps, and failing exactly if some quotient is not an integer |
| Schedules.ApplyPeriodicity | frontend/src/ir/schedule.rs:97-113 | the sieve: a step holds, in order, the cells whose number divides its position |
| Schedules.DueOnce | frontend/src/ir/schedule.rs:97-113 | a stream is in a step exactly once if its number of steps divides the position, and otherwise not |
| Schedules.DueIffDivides | frontend/src/ir/schedule.rs:97-140 | a period measures the time of a step exactly if its number of steps divides the step |
| Schedules.CondenseDeadlines | frontend/src/ir/schedule.rs:142-158 | one deadline per non-empty step, paused by the truncated distance to the previous one; fails exactly if steps are left over |
| Schedules.GapReaches | frontend/src/ir/schedule.rs:142-158 | a deadline stands for the non-empty step that its gaps add up to |
| Schedules.StepReached | frontend/src/ir/schedule.rs:142-158 | every non-empty step has a deadline |
| Schedules.SortByLayerSorts | frontend/src/ir/schedule.rs:160-164 | sorting permutes the due streams into layer order |
| ScheduleCycles.FindExtendPeriod | frontend/src/ir/schedule.rs:75-80 | the step is the greatest time that measures every period |
| ScheduleCycles.FindHyperPeriod | frontend/src/ir/schedule.rs:82-90 | the hyper period is the least whole number of nanoseconds that every period measures |
| ScheduleCycles.StepsAlwaysBuildable | frontend/src/ir/schedule.rs:120-140 | for positive periods no integrality assertion fails and every stream finds its cell |
| ScheduleCycles.From | frontend/src/ir/schedule.rs:59-71 | the schedule of any non-empty set of periodic streams: no assertion fails, it is refused exactly for too many steps, and otherwise its cycle covers one hyper period, holds every stream exactly once at exactly the steps its period measures, in layer order, with nothing left over |
| ScheduleCycles.CycleRepeats | frontend/src/ir/schedule.rs:59-71 | what is due in a step of a later hyper period is what is due in the first |
| ScheduleCycles.FasterStreamsDue | frontend/src/ir/schedule.rs:59-71 | when a stream is due, so is every stream whose period measures its period |
| ScheduleCycles.Drift | frontend/src/ir/schedule.rs:142-158 | after `m` deadlines the truncated pauses lag behind the exact time by less than `m` nanoseconds, and never run ahead |
| ScheduleCycles.CycleLength | frontend/src/ir/schedule.rs:142-158 | the pauses of a cycle of `n` deadlines sum to at most the hyper period and to more than it less `n` nanoseconds, and exactly to it if the gcd is whole |
| ZeroPauses.PausesPositiveIff | interpreter/src/coordination/controller.rs:198-199 | every pause of a cycle is positive exactly if any two periods have a greatest common divisor of at least a nanosecond |
| ZeroPauses.ShortPeriodVanishes | interpreter/src/coordination/controller.rs:198-199 | a period of less than a nanosecond makes the first pause zero |
| OneFrequency.OneFrequencyScheduled | frontend/src/ir/schedule.rs:59-71 | a program with one frequency has a schedule if the numerator of the frequency is below the limit of steps, and no zero pause exactly if the frequency is at most a gigahertz |
| Pipeline.PeriodExact | frontend/src/ir/lowering.rs:780-795 | the period of every frequency: frequency in hertz times period in nanoseconds is exactly 10^9 |
| Replays.DueExactly | interpreter/src/coordination/controller.rs:189-202 | for every deadline of the infinite replay: a stream is due at it exactly if its period measures the exact time of the deadline; at the start all are |
| Replays.EveryMultipleHasDeadline | interpreter/src/coordination/controller.rs:189-202 | every multiple of every period has a deadline in the replay, at which the stream is due |
| Replays.ReplayLag | frontend/src/ir/schedule.rs:142-158 | for every `k`, the truncated time of deadline `k` of the replay lags its exact time by less than `k` nanoseconds and never leads it; it is exact if the gcd of the periods is whole |
| ProgramReplays.ReplayKeepsTime | interpreter/src/coordination/controller.rs:189-202 | the replay of every program's schedule: a periodic output is evaluated at a deadline, once, exactly if the deadline's exact time in nanoseconds times its frequency is a whole multiple of 10^9; every such multiple has a deadline; nothing else is evaluated; deadlines ascend, and each pause is the exact one without its fraction of a nanosecond |
| ProgramReplays.WholePeriods | interpreter/src/coordination/controller.rs:189-202 | if all periodic outputs have one frequency with a whole period, all are evaluated at deadline `k`, whose time is exactly `k` periods |
| Controller.StartOffline | interpreter/src/coordination/event_driven_manager.rs:75-106 | the batches hold all events in order and then the end marker, within their capacity |
| Controller.ScheduleTimed | interpreter/src/coordination/controller.rs:189-202 | evaluates the due list of the next deadline and advances to the following one; fails only on a panic or a zero pause |
| Controller.CatchUp | interpreter/src/coordination/controller.rs:153-161 | evaluates exactly the deadlines before the event |
| Controller.HandleEnd | interpreter/src/coordination/controller.rs:167-179 | at the end, a deadline at the time of the last event is still evaluated |
| Controller.EvaluateOffline | interpreter/src/coordination/controller.rs:98-187 | a run that goes through has evaluated all events merged with exactly the deadlines up to the last event, each after all events at or before it and before all later events, and no pause after these deadlines is zero; a run stops only at a zero pause after such a deadline or at a panic in the merge of some first events with some deadlines |
| Controller.AdvancesAlwaysIff | interpreter/src/coordination/controller.rs:189-202 | the replay gets to every time exactly if no pause of the cycle is zero |
| Controller.AdvancesPastCycleIff | interpreter/src/coordination/controller.rs:189-202 | and already if it gets past its first cycle |
| Controller.MergeTimesAscend | interpreter/src/coordination/controller.rs:147-183 | evaluation times never decrease along a merge |
| Controller.MergeNeverReversesTime | interpreter/src/evaluator.rs:154-160 | no evaluation along a merge fails the evaluator's time assertion |
| Controller.InterleavingUnique | interpreter/src/coordination/controller.rs:147-183 | there is only one such merge |
| Controller.CountUnique | interpreter/src/coordination/controller.rs:147-183 | the number of evaluated deadlines is determined by the last event |
| Controller.FullMergeExact | interpreter/src/coordination/controller.rs:147-183 | what was evaluated: the events in their order, and deadline `j` of the replay exactly if it is not after the last event; times ascend, and at one time the events come before the deadlines |
| Controller.KindsOfParts | interpreter/src/coordination/controller.rs:147-183 | the events and the deadlines of a trace are those of its parts, in their order |
| Cycles.CycleFinder.Unblock | frontend/src/analysis/graph_based_analysis/dependency_graph.rs:96-104 | unblocks only nodes reachable through the lists, empties exactly their lists, and releases everything on them |
| Cycles.FailedStaysSeparated | frontend/src/analysis/graph_based_analysis/dependency_graph.rs:131-137 | when a failed node is put on the lists of its successors, still no stack node is reachable through the lists of itself or of a later one |
| Cycles.CycleFinder.UnblockTop | frontend/src/analysis/graph_based_analysis/dependency_graph.rs:129-140 | after a found cycle the top of the stack is unblocked, and no other stack node is |
| Cycles.WaitingIsFutile | frontend/src/analysis/graph_based_analysis/dependency_graph.rs:123-125 | from a blocked node off the stack no circuit leads back to the start without meeting the stack, so skipping it loses nothing |
| Cycles.CycleFinder.GetElementaryCircuits | frontend/src/analysis/graph_based_analysis/dependency_graph.rs:106-141 | the recursion terminates and reports exactly the elementary circuits of the component along the current stack, each once |
| Cycles.CycleFinder.GetElementaryCycles | frontend/src/analysis/graph_based_analysis/dependency_graph.rs:76-94 | the search reports exactly the elementary circuits from the least node of each component and the self-loops, each once |
| Cycles.ReportedIffThroughLeast | frontend/src/analysis/graph_based_analysis/dependency_graph.rs:78-82 | a circuit of a component is reported, from one of its nodes, exactly if it passes through the component's least node |
| Cycles.CycleMissed | frontend/src/analysis/graph_based_analysis/dependency_graph.rs:78-82 | a graph of three nodes with an elementary cycle that is not reported |
| Paths.PathEnumerator.EnumeratePaths | frontend/src/analysis/graph_based_analysis/dependency_graph.rs:149-174 | appends exactly the edge paths that end with the edges on the stack, each once across parallel edges, and leaves the stack as it was |
| Paths.FindAllCyclicPaths | frontend/src/analysis/graph_based_analysis/dependency_graph.rs:382-389 | exactly the cyclic edge paths of all given node cycles, each once |
| Dependencies.GetCycleWeight | frontend/src/analysis/graph_based_analysis/dependency_graph.rs:334-380 | an edge that is no discrete access or access by name makes a cyclic path an error; otherwise the sign of its summed offsets is its weight |
| Dependencies.OffsetsAddUp | frontend/src/analysis/graph_based_analysis/dependency_graph.rs:357-372 | the sum of a path is that of its parts, and of one edge its discrete offset, or zero |
| Dependencies.SameInstantLinksExact | frontend/src/analysis/graph_based_analysis/evaluation_order.rs:92-160 | the accesses of the same instant are those with offset zero, those by a past time, and windows over other streams |
| Dependencies.KeptReadsHaveEdges | frontend/src/analysis/graph_based_analysis/dependency_graph.rs:221-332 | every read that is not projected away has its edge |
| Dependencies.EdgesLeaveNode | frontend/src/analysis/graph_based_analysis/dependency_graph.rs:466-473 | the edges of an expression leave its own node and are direct accesses |
| Accesses.EdgesExact | frontend/src/analysis/graph_based_analysis/dependency_graph.rs:221-332 | the edges of an expression are exact: an edge belongs to it if and only if a lookup occurs in it, outside entries that are projected away, with that target and offset (future and real-time lookups included) |
| Accesses.GraphExact | frontend/src/analysis/graph_based_analysis/dependency_graph.rs:466-481 | and so are the edges of a program |
| Accesses.ReadsExact | interpreter/src/evaluator.rs:331-551 | the reads of an expression are exactly the lookups that occur in it |
| Accesses.SyncReadsExact | interpreter/src/evaluator.rs:414-417 | and its synchronous reads exactly the synchronous accesses |
| Accesses.FutureExact | frontend/src/analysis/graph_based_analysis/future_dependency.rs:15-47 | an output depends directly on the future exactly if a lookup into the future occurs in it, outside entries that are projected away |
| CycleCheck.CheckCycles | frontend/src/analysis/graph_based_analysis/dependency_graph.rs:505-529 | accepts exactly if no edge path along a reported cycle has a real-time edge or weight zero; and if every longer cycle lies in one component, an accepted graph has acyclic same-instant accesses exactly if those between streams that are least in no component are acyclic |
| CycleCheck.AcceptedAcyclicIff | frontend/src/analysis/graph_based_analysis/dependency_graph.rs:505-529 | that equivalence, for every graph without an error |
| CycleCheck.SameInstantCycleFlagged | frontend/src/analysis/graph_based_analysis/dependency_graph.rs:334-380 | if the same-instant accesses are cyclic, some elementary cycle has an edge path with a real-time edge or weight zero |
| CycleCheck.RotationFlagged | frontend/src/analysis/graph_based_analysis/dependency_graph.rs:334-380 | the verdict on a cyclic path does not depend on the node it starts from |
| CycleCheck.AcceptedButCyclic | frontend/src/analysis/graph_based_analysis/dependency_graph.rs:505-529 | a dependency graph, with its one component, that is accepted although its same-instant accesses are cyclic |
| ComputeGraphs.BuildComputeGraph | frontend/src/analysis/graph_based_analysis/evaluation_order.rs:61-165 | the graph has the four steps of every stream and exactly the needs of the streams and dependencies |
| ComputeGraphs.NeedsExact | frontend/src/analysis/graph_based_analysis/evaluation_order.rs:87-162 | which steps an access connects, by its place and offset: a past access needs only the extension of its target, a future one nothing |
| ComputeGraphs.OwnNeedsExact | frontend/src/analysis/graph_based_analysis/evaluation_order.rs:72-74 | the steps of one stream need each other in the order invoke, extend, evaluate, and terminate needs invoke |
| ComputeGraphs.AcyclicIffSameInstantAcyclic | frontend/src/analysis/graph_based_analysis/evaluation_order.rs:61-165 | without templates the computation graph is acyclic exactly if the same-instant accesses are, so negative offsets never block the layering |
| Layering.RemoveNodeMeaning | frontend/src/analysis/graph_based_analysis/evaluation_order.rs:186-188 | removing a node by moving the last one into its place removes exactly that node with its edges |
| Layering.RemoveAll | frontend/src/analysis/graph_based_analysis/evaluation_order.rs:185-188 | removing a front in descending index order removes exactly that front |
| Layering.GetComputeOrder | frontend/src/analysis/graph_based_analysis/evaluation_order.rs:167-198 | for an acyclic graph the loop terminates, layer `k` holds exactly the steps removed in round `k`, each once, and nothing remains |
| Layering.LayerIsLongestPath | frontend/src/analysis/graph_based_analysis/evaluation_order.rs:167-198 | every step is in exactly one layer, and its number is the length of the longest dependency path from the step |
| Layering.EmptiesIffAcyclic | frontend/src/analysis/graph_based_analysis/evaluation_order.rs:170-189 | the rounds empty a graph exactly if it is acyclic; on a cyclic graph they never end |
| LayerTables.OrderToTable | frontend/src/ir/lowering.rs:815-832 | the table is collected from both orders, later entries overriding earlier ones |
| LayerTables.TableHoldsLast | frontend/src/ir/lowering.rs:815-832 | the entry of a stream is the last layer that holds one of its steps |
| LayerTables.TableHoldsEvaluation | frontend/src/ir/lowering.rs:815-840 | without templates that is the layer of its evaluation, the longest dependency path |
| LayerTables.ReadersComeLater | frontend/src/ir/lowering.rs:815-840 | a stream is in a later layer than every stream whose current value it reads |
| LayerTables.DetermineOrder | frontend/src/analysis/graph_based_analysis/evaluation_order.rs:14-26 | the order of some streams whose same-instant accesses are acyclic |
| EventLayers.GetEventDrivenLayers | frontend/src/ir.rs:590-630 | the lists hold all event-driven outputs layer by layer, one non-empty list per occupied layer, ascending |
| EventLayers.AllLayersMeaning | frontend/src/ir.rs:590-630 | flattened, the lists hold every event-driven output once, in layer order |
| BufferSizes.DetermineBufferSize | frontend/src/analysis/graph_based_analysis/space_requirements.rs:22-73 | every stream gets the least size of at least one that serves all past discrete offsets into it, marked if it is future-dependent; all inputs are unbounded exactly if a future-dependent stream is accessed with a positive offset outside an expression |
| BufferSizes.StorageRequired | frontend/src/analysis/graph_based_analysis/space_requirements.rs:32-54 | the loop over the incoming edges of one stream computes that least size |
| BufferSizes.BoundServes | frontend/src/ir/lowering.rs:422-428 | the lowered bound has room for every access |
| BufferSizes.BoundTight | frontend/src/ir/lowering.rs:422-428 | a stream without a lowered bound is one that must be unbounded, and a smaller bound would not serve some access |
| LoweredPrograms.BoundExact | frontend/src/ir/lowering.rs:422-428 | the lowered bound of every stream of a program is exactly one more than the greatest past offset by which it is accessed, or one |
| LoweredPrograms.SameProgram | frontend/src/ir/lowering.rs:78-228 | lowering keeps the inputs, windows, expressions, triggers and clocks of a program, gives triggers no buffer, and links exactly the windows that outputs which are no triggers read |
| LoweredPrograms.SameActivity | frontend/src/ir/lowering.rs:109-228 | an output is evaluated in an event exactly if its clock in the program is event-driven and its condition holds of the inputs that have a value |
| Reachability.DetermineRequiredInputs | frontend/src/analysis/graph_based_analysis/input_dependencies.rs:9-29 | the list of every node holds each input it reaches exactly once, and nothing else |
| Reachability.ColorReachable | frontend/src/analysis/graph_based_analysis/input_dependencies.rs:31-48 | the search terminates and adds the input once to the lists of exactly the other nodes that reach it |
| Reachability.PropagateFutureDependence | frontend/src/analysis/graph_based_analysis/future_dependency.rs:50-65 | the recursion terminates, marks only nodes that reach the start, and all predecessors of what it marks |
| Reachability.FutureDependentStreams | frontend/src/analysis/graph_based_analysis/future_dependency.rs:15-47 | the marked nodes are exactly those that reach a node with a future access |
| Lowering.ReadHasEdge | frontend/src/analysis/graph_based_analysis/dependency_graph.rs:466-481 | every read of an output that is not projected out of a tuple literal has its edge in the graph |
| Lowering.LoweredWellFormed | frontend/src/ir/lowering.rs:109-228 | with the computed bounds every read can be served from the buffers, if those without an edge can |
| Lowering.KindAcyclic | frontend/src/analysis/graph_based_analysis/evaluation_order.rs:28-52 | keeping only the event-driven or only the periodic streams keeps the same-instant accesses acyclic, with all remaining edges between retained streams |
| Lowering.TableRespectsReads | frontend/src/ir/lowering.rs:815-840 | in the collected table, same-instant accesses between streams of one kind go to an earlier layer |
| Lowering.TableIsExact | frontend/src/ir/lowering.rs:815-840 | the collected table holds the longest dependency path of every stream, event-driven or periodic |
| Lowering.SortedIsTopological | frontend/src/ir.rs:590-630 | outputs of one kind sorted by their layers are in an admissible order, if the targets of reads without an edge are in earlier layers |
| Lowering.PrunedSortedIsTopological | frontend/src/ir.rs:590-630 | with projections replaced by their entries, always |
| Lowering.LinkWindows | frontend/src/ir/lowering.rs:78-105 | a window is linked to its target exactly if an output that is no trigger reads it, as triggers are lowered afterwards |
| Lowering.WindowsLinked | frontend/src/ir/lowering.rs:78-105 | if no trigger reads a window, every window that is read is linked |
| Pruning.PrunedValue | interpreter/src/evaluator.rs:507-551 | an expression that has a value has the value of the expression in which projections are replaced by their entries |
| Pruning.DroppedReadsOnlyPanic | frontend/src/analysis/graph_based_analysis/dependency_graph.rs:317-324 | contexts that agree on the reads with an edge give one value, if both give a value |
| Pruning.RunPruned | interpreter/src/evaluator.rs:154-279 | a run that goes through is, state by state, the run of the specification in which projections are replaced by their entries |
| LateReads.StrictPanics | interpreter/src/evaluator.rs:561-573 | an expression panics if a stream is not fresh that it reads synchronously in a position that is always evaluated |
| LateReads.LateReadPanics | interpreter/src/evaluator.rs:240-279 | so the evaluation of an order panics in which an output reads such a stream before its evaluation |
| Pipeline.Lower | frontend/src/ir/lowering.rs:55-136 | lowering terminates for acyclic same-instant accesses and yields bounds, layers, clocks and links from the analyses |
| Pipeline.LoweredIsWellFormed | frontend/src/ir/lowering.rs:55-136 | the lowered specification meets the conditions of the refinement, if the reads without an edge are served and in earlier layers |
| Pipeline.PrunedIsAdmissible | frontend/src/ir/lowering.rs:55-136 | for every checked program the lowered specification with projections replaced by their entries is well-formed, and every order of outputs of one kind by their layers is admissible for it |
| Pipeline.DroppedInputs | frontend/src/analysis/graph_based_analysis/dependency_graph.rs:317-324 | in a program that projects away only current values of inputs, such as `(i, j).0`, the reads without an edge are served and in earlier layers |
| Pipeline.DueIsTopological | frontend/src/ir/schedule.rs:160-164 | what is due at an exact deadline is in an admissible order |
| Pipeline.ScheduleOf | frontend/src/ir/lowering.rs:780-795 | the schedule of a program is the exact cycle of its periodic outputs over one hyper period; it is refused only if the hyper period has too many steps |
| Pipeline.PausesPositiveIffApart | interpreter/src/coordination/controller.rs:198-199 | the schedule of a program has no zero pause exactly if any two periods of its outputs have a gcd of at least a nanosecond |
| Pipeline.AllDueAtStart | interpreter/src/coordination/controller.rs:129-135 | at the start every periodic output is due |
| Pipeline.MergeIsWellOrdered | interpreter/src/coordination/controller.rs:98-187 | every run of the controller evaluates only orders that are admissible for a specification with admissible layers |
| Pipeline.PrunedRunComputes | interpreter/src/coordination/controller.rs:98-187 | for every checked program: a merge of events with deadlines that goes through ends in the newest values of a trace that satisfies the equations, projections read as their entries, and if no trigger reads a window, windows read as over their targets |
| Pipeline.MergedRunComputes | interpreter/src/coordination/controller.rs:98-187 | that, and if the reads without an edge are served and in earlier layers, the merge goes through exactly if the equations as they are written have a solution |
| Offline.OfflineOutcome | interpreter/src/coordination/controller.rs:98-187 | what any run of the controller over a checked program has computed, and why it stopped if projections do no harm |
| Offline.OfflineAccepted | interpreter/src/coordination/controller.rs:98-187 | for an accepted program with typed events, the run has computed the equations as they are written, and if no synchronous read comes too early it goes through exactly if there is an event and no pause up to the last event is zero |
| Offline.RunOffline | interpreter/src/coordination/controller.rs:98-187 | the whole pipeline from a checked program and events: specification and schedule are those of the program; a run that goes through is the merge of all events with exactly the deadlines up to the last event and has computed over unbounded histories what the program says, projections read as their entries, except for windows in triggers; for an accepted program with typed events and total operators, without synchronous reads that come too early, it goes through exactly if it has a schedule, there is an event, and no pause up to the last event is zero; no pause is ever zero exactly if any two periods have a gcd of at least a nanosecond |
| Example.RunLatch | interpreter/src/coordination/controller.rs:98-187 | the whole pipeline on a program that latches the first value of a stream: it goes through exactly if there is an event |
| CountingWindow.CountingMeaning | interpreter/src/evaluator.rs:589-592 | in the equations of `c @1Hz := x.aggregate(over: 5s, using: count)`, `c` is the number of values of `x` in the last 64 buckets |
| CountingWindow.RunCounting | interpreter/src/coordination/controller.rs:98-187 | the whole pipeline on that program: it has a schedule and goes through exactly if there is an event, with the values of those equations; its output has its turn at exactly every second |
| TriggerWindow.DeclaredStep | interpreter/src/evaluator.rs:589-592 | with its window linked, the trigger `a && x.aggregate(over: 5s, using: count) > 3` is true exactly if `x` had more than three values in range |
| TriggerWindow.AlarmSilent | frontend/src/ir/lowering.rs:78-105 | as the program is lowered, that trigger is not reported in any state the evaluator reaches: not after any steps, nor within the next one after any outputs, whether or not the run goes on |
| TriggerWindow.AlarmLowered | frontend/src/ir/lowering.rs:78-105 | as the program is lowered, the window of its trigger is linked to nothing |
| TriggerWindow.RunAlarm | frontend/src/ir/lowering.rs:78-105 | the program is accepted, its run on four values at the start goes through without a report, and the equations of the program report the trigger |
| TwoGigahertz.RunFast | interpreter/src/coordination/controller.rs:189-202 | an output at two gigahertz is accepted and has a schedule, and no run of it goes through, whatever the events |
| FreshAccesses.ActiveTarget | frontend/src/ty.rs:198-249 | whenever an event-driven output is active, so is every stream it accesses synchronously |
| FreshAccesses.DueTarget | frontend/src/ty.rs:198-285 | whenever a periodic output is due, so is every stream it accesses synchronously |
| FreshAccesses.EventReadsFresh | interpreter/src/evaluator.rs:561-573 | in every event of the declarative semantics, a synchronous access observes a current value |
| FreshAccesses.DeadlineReadsFresh | interpreter/src/evaluator.rs:561-573 | at every deadline of the declarative semantics, a synchronous access observes a current value |
| FreshAccesses.EventMachineFresh | interpreter/src/evaluator.rs:561-573 | in the machine, when an output is evaluated for an event, the target of every synchronous access that has an edge is already fresh (of every one, if projections do no harm) |
| FreshAccesses.DeadlineMachineFresh | interpreter/src/evaluator.rs:561-573 | in the machine, when an output is evaluated at a deadline, the target of every synchronous access that has an edge is already fresh (of every one, if projections do no harm) |
| Progress.OrderProgressesIff | interpreter/src/evaluator.rs:240-279 | outputs of a typed specification in an order that is closed under synchronous reads all get a value if none of them reads synchronously an output after it, and only then if such reads are always performed |
| Progress.RunProgressesIff | interpreter/src/evaluator.rs:154-279 | the same for every typed, closed run in time order |
| PerformedReads.HasValueIff | interpreter/src/evaluator.rs:331-551 | with its other lookups served, a typed expression over total operators has a value exactly if every stream that its evaluation reads synchronously has a current value |
| PerformedReads.OrderRunsIff | interpreter/src/evaluator.rs:240-279 | outputs of a typed specification in an order that is closed under synchronous reads all get a value exactly if none of them, in its turn, performs the read of an output after it |
| PerformedReads.RunGoesThroughIff | interpreter/src/evaluator.rs:154-279 | the same for every typed, closed run in time order |
| Progress.NothingLate | frontend/src/analysis/graph_based_analysis/dependency_graph.rs:317-324 | in a checked program that projects no synchronous read away, no output reads synchronously an output that is evaluated after it, neither in the layers nor at a deadline |
| Progress.AcceptedRunsIff | frontend/src/ty.rs:198-214 | an accepted program with total operators gets through a merge of typed events with its deadlines if no synchronous read comes too early in it, and only then if what is projected away is always performed |
| TypedTraces.ModelTyped | interpreter/src/evaluator.rs:154-279 | in every solution of the equations of a typed specification all values have their types |
| TypedTraces.TypedRunModelled | interpreter/src/evaluator.rs:154-279 | the equations of a typed specification have a solution on every closed run whose orders respect the reads with an edge, and it is that of the equations in which projections are replaced by their entries |
| AcceptedPrograms.DeclaredSolvable | frontend/src/ty.rs:198-214 | what an accepted program says, with every window over its target, has a solution on every merge of typed events with its deadlines, whether or not the evaluator gets through |
| AcceptedPrograms.AcceptedRunComputes | interpreter/src/coordination/controller.rs:98-187 | a run of an accepted program on typed events that goes through has computed the equations as they are written; with all windows over their targets, if no trigger reads a window |
| AcceptedPrograms.AcceptedProgramProgresses | frontend/src/ty.rs:198-214 | progress behind the type checks, for a merge of typed events with the deadlines of the schedule: it runs without a panic exactly if no output performs in it a synchronous read of an output that is evaluated after it in the same step; it does if no output has such a read, only then if dropped synchronous reads are always performed, and always if none is dropped |
| AcceptedPrograms.AlwaysRunsIff | frontend/src/analysis/graph_based_analysis/dependency_graph.rs:317-324 | an accepted program whose dropped synchronous reads are always performed gets through all merges of typed events with its deadlines exactly if no synchronous read comes too early in its layers and deadlines, given an event that activates all outputs |
| HeldProjection.RunHolding | frontend/src/analysis/graph_based_analysis/dependency_graph.rs:317-324 | the program with `(i, y.hold(or: true)).0` and `y` in one layer goes through exactly if there is an event, and computes what it says |
| ProjectedReads.ProjectionComesFirst | frontend/src/analysis/graph_based_analysis/dependency_graph.rs:317-324 | whatever lowering computes for `(i, y).0`, the projection is evaluated before `y` |
| ProjectedReads.ProjectionBreaksRefinement | frontend/src/analysis/graph_based_analysis/dependency_graph.rs:317-324 | that program is accepted and its equations are solvable, but its projection always reads `y` too early and the evaluator panics on it |

## Left out

- Offline.RunOffline: requires acyclic same-instant accesses, without which the layering never ends; the section on false properties says when the cycle check guarantees them. For programs that are not typed, why a run stopped is said only if the reads without an edge are served and in earlier layers.
- InferredClocks.InferredPanicsIff: is about accessed clocks over inputs; where an accessed output is annotated with names of other outputs, these are replaced only after the sort, as `NormalizedClocks` says.
- CycleCheck.CheckCycles: `tarjan_scc` is taken as given; that every longer cycle lies in one component is what it promises.
- ComputeGraphs.AcyclicIffSameInstantAcyclic: is about specifications without stream templates; the graph construction itself covers all locations.
- Clocks.SimplifyMeaning: models the library sort as insertion, by any order.
- Schedules.SortByLayerSorts: models the stable library sort as insertion.
- EvaluatorClass.Evaluator.AcceptInputs: a value of the wrong type panics in the code when a window accepts it, and in the model when the window is read; programs that pass the type checks have none.
- EvaluatorClass.Evaluator.EvalStream: the evaluator keeps the log of every window, and a lookup replays it on a deque, where the code keeps the deque; `WindowRuns.ApplyAll` proves that driving the deque in place gives the same. A value of the wrong type panics in the code when a window accepts it, and in the model when the window is read.
- Windows.WindowInstance.InvalidateN: for a window of less than 64 ns the code rotates once for every number up to the largest 64-bit one, which the model takes in one count.
- Windows.WindowInstance.GetValue: models the floating-point bucket division as exact floor division of nanoseconds.
- Aggregations.IntegralMeaning: works over the reals, for any conversion of a time to seconds; `WindowKinds.NewWindow` takes that of the code.
- WindowKinds.NewWindowIff: windows with the aggregation `product`, which the type checks accept (frontend/src/ty/check.rs, line 1218) and the interpreter does not implement (interpreter/src/storage/window.rs, line 67), and windows that sum booleans, whose default value the code cannot build, are a panic, without a model of what they would compute.
- Controller.EvaluateOffline: leaves out the channel, the threads and the output; without any event the start time is never received, which is modelled as a failing run.
- Closures.CompiledIsInterpreted: the closure compiler negates a past offset when it compiles (interpreter/src/closuregen.rs, line 120), which overflows for 0x8000 in a debug build; in the model such an offset compiles, and the lookup panics when it is executed. A discrete offset of -32768 already fails in lowering (frontend/src/ir/lowering.rs, lines 696-698).
- Fixed-width overflow of integers, except for the cast of a discrete offset to 16 bits, and floating-point rounding.
- Buffer sizes for real-time offsets: only discrete offsets raise the bound in the code. The tracking and memory estimates are not used by the interpreter.
- Parameterised streams, the parser, name resolution, value-type inference, printing, CSV and PCAP input, statistics, online mode and the command line.
- `Monitor::accept_time`, which restarts the deadline cycle on every call.
- Streams with both a positive and a negative cycle, for which the check is unimplemented, and the warnings for positive cycles.
- Regular expressions, byte strings and the functions on them; all other library functions are parameters.
