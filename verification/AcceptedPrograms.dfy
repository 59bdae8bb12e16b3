/**
 Accepted programs: on typed events what they declare always has a solution, and the evaluator computes
 it exactly if no synchronous read comes too early.
 */
module AcceptedPrograms {
  import opened Values
  import opened Sequences
  import opened Lowering
  import opened Controller
  import opened Pipeline
  import opened Progress
  import opened LateReads
  import opened TypedTraces
  import opened TypedRuns
  import E = Expressions
  import M = Evaluator
  import BufferSizes
  import FreshAccesses
  import Histories
  import OneStep
  import PerformedReads
  import Pruning
  import Schedules

  lemma AcceptedIsSound(p: Program, spec: M.Spec, table: map<nat, nat>,
                        requirements: seq<BufferSizes.StorageRequirement>, prims: E.Prims, s: E.Signature)
    requires Checked(p) && IsLowered(p, spec, table, requirements) && TypedTotal(spec, prims, s)
    ensures Sound(spec, prims, s)
  {
    forall o, a | 0 <= o < |spec.outputs| && a in E.Reads(spec.outputs[o].expr) ensures Resolved(spec, a) {
      assert spec.outputs[o] == LowerOutput(p, requirements, o);
      assert KnownAccess(p, a);
      AccessStored(p, spec, table, requirements, a);
    }
    forall w | 0 <= w < |spec.windows| ensures M.Stored(spec, spec.windows[w].target) && M.Faithful(spec.windows[w]) {
      assert Known(p, p.windows[w].target);
      BoundOfStream(p, requirements, spec.layers, p.windows[w].target);
    }
  }

  lemma AccessStored(p: Program, spec: M.Spec, table: map<nat, nat>, requirements: seq<BufferSizes.StorageRequirement>,
                     a: E.Access)
    requires Checked(p) && IsLowered(p, spec, table, requirements) && KnownAccess(p, a)
    ensures Resolved(spec, a)
  {
    if !a.Window? {
      BoundOfStream(p, requirements, spec.layers, a.x);
    }
  }

  /** A merge of typed events with the deadlines of the program's schedule. */
  ghost predicate TypedMerge(p: Program, spec: M.Spec, table: map<nat, nat>, deadlines: seq<Schedules.Deadline>,
                             trace: seq<M.Step>, events: seq<M.Step>, prims: E.Prims, s: E.Signature)
    requires ClocksInferred(p)
  {
    && IsScheduleOf(p, table, deadlines) && MergesSome(trace, events, deadlines) && TimesAscend(events)
    && TypedTotal(spec, prims, s) && TypedInputs(spec, s, events)
  }

  lemma MergeOrderly(p: Program, spec: M.Spec, table: map<nat, nat>, requirements: seq<BufferSizes.StorageRequirement>,
                     deadlines: seq<Schedules.Deadline>, trace: seq<M.Step>, events: seq<M.Step>, prims: E.Prims,
                     s: E.Signature)
    requires FreshAccesses.Accepted(p) && IsLowered(p, spec, table, requirements)
    requires TypedMerge(p, spec, table, deadlines, trace, events, prims, s)
    ensures Sound(spec, prims, s) && Closed(spec, s, trace) && TimesAscend(trace)
    ensures OneStep.WellFormed(Pruning.Pruned(spec)) && Histories.WellOrdered(Pruning.Pruned(spec), trace)
  {
    var g := ScheduleIsExact(p, table, deadlines);
    var k: nat :| Merges(trace, events, deadlines, k);
    AcceptedIsSound(p, spec, table, requirements, prims, s);
    MergeClosed(p, spec, table, requirements, g, deadlines, trace, events, k, s);
    MergeTimesAscend(trace, events, deadlines, k);
    PrunedIsAdmissible(p, spec, table, requirements);
    MergeIsWellOrdered(p, Pruning.Pruned(spec), table, g, deadlines, trace, events, k);
  }

  /** What an accepted program says has a solution on every merge of typed events with its deadlines. */
  lemma DeclaredSolvable(p: Program, spec: M.Spec, table: map<nat, nat>,
                         requirements: seq<BufferSizes.StorageRequirement>, deadlines: seq<Schedules.Deadline>,
                         trace: seq<M.Step>, events: seq<M.Step>, prims: E.Prims, s: E.Signature)
    requires FreshAccesses.Accepted(p) && IsLowered(p, spec, table, requirements)
    requires TypedMerge(p, spec, table, deadlines, trace, events, prims, s)
    ensures Histories.HasModel(Histories.Intended(spec), prims, trace)
  {
    var q := Histories.Intended(spec);
    MergeOrderly(p, spec, table, requirements, deadlines, trace, events, prims, s);
    IntendedSound(spec, prims, s);
    IntendedClosed(spec, s, trace);
    IntendedFormed(Pruning.Pruned(spec));
    IntendedOrdered(Pruning.Pruned(spec), trace);
    assert Pruning.Pruned(q) == Histories.Intended(Pruning.Pruned(spec));
    TypedRunModelled(q, prims, s, trace);
  }

  /** If the evaluator gets through, it has computed the solution of the equations as they are written. */
  lemma AcceptedRunComputes(p: Program, spec: M.Spec, table: map<nat, nat>,
                            requirements: seq<BufferSizes.StorageRequirement>, deadlines: seq<Schedules.Deadline>,
                            trace: seq<M.Step>, events: seq<M.Step>, prims: E.Prims, s: E.Signature)
    requires FreshAccesses.Accepted(p) && IsLowered(p, spec, table, requirements)
    requires TypedMerge(p, spec, table, deadlines, trace, events, prims, s)
    requires M.RunAll(spec, M.Interpreted(spec, prims), trace).Ok?
    ensures var st := M.RunAll(spec, M.Interpreted(spec, prims), trace).value;
            && Computes(spec, spec, prims, st, trace)
            && (TriggersReadNoWindow(p) ==> Computes(Histories.Intended(spec), spec, prims, st, trace))
  {
    var st := M.RunAll(spec, M.Interpreted(spec, prims), trace).value;
    var g := ScheduleIsExact(p, table, deadlines);
    MergeOrderly(p, spec, table, requirements, deadlines, trace, events, prims, s);
    TypedRunModelled(spec, prims, s, trace);
    PrunedRunComputes(p, spec, table, requirements, g, deadlines, trace, events, prims);
    var t :| Histories.IsModel(Pruning.Pruned(spec), prims, trace, t) && Histories.Holding(spec, st, t);
    assert Histories.IsModel(spec, prims, trace, t);
    if TriggersReadNoWindow(p) {
      WindowsLinked(p, requirements, spec.layers);
      Histories.LinkedIsIntended(spec, prims, trace, t);
    }
  }

  lemma AcceptedGoesThroughIff(p: Program, spec: M.Spec, table: map<nat, nat>,
                               requirements: seq<BufferSizes.StorageRequirement>,
                               deadlines: seq<Schedules.Deadline>, trace: seq<M.Step>, events: seq<M.Step>,
                               prims: E.Prims, s: E.Signature)
    requires FreshAccesses.Accepted(p) && IsLowered(p, spec, table, requirements)
    requires TypedMerge(p, spec, table, deadlines, trace, events, prims, s)
    ensures M.RunAll(spec, M.Interpreted(spec, prims), trace).Ok?
            <==> PerformedReads.NeverLate(spec, prims, trace, |trace|)
  {
    MergeOrderly(p, spec, table, requirements, deadlines, trace, events, prims, s);
    ResolvedAddressable(spec);
    PerformedReads.RunGoesThroughIff(spec, prims, s, trace);
  }

  /**
   Exactly when an accepted program runs: along every merge of typed events with the deadlines of its
   schedule, the run goes through, and computes the equations as they are written, if and only if no
   output performs a synchronous read of an output that is evaluated after it in the same step. Without
   looking at a run: it does if no output has such a read; only reads that are projected away can come
   too early, and if those are always performed, it does only then.
   */
  lemma AcceptedProgramProgresses(p: Program, spec: M.Spec, table: map<nat, nat>,
                                  requirements: seq<BufferSizes.StorageRequirement>,
                                  deadlines: seq<Schedules.Deadline>, trace: seq<M.Step>, events: seq<M.Step>,
                                  prims: E.Prims, s: E.Signature)
    requires FreshAccesses.Accepted(p) && IsLowered(p, spec, table, requirements)
    requires TypedMerge(p, spec, table, deadlines, trace, events, prims, s)
    ensures var r := M.RunAll(spec, M.Interpreted(spec, prims), trace);
            && (r.Ok? <==> PerformedReads.NeverLate(spec, prims, trace, |trace|))
            && (r.Ok? ==> Computes(spec, spec, prims, r.value, trace))
            && (r.Ok? && TriggersReadNoWindow(p) ==> Computes(Histories.Intended(spec), spec, prims, r.value, trace))
            && (RunInOrder(spec, trace, |trace|) ==> r.Ok?)
            && (DroppedSyncStrict(p) ==> (r.Ok? <==> RunInOrder(spec, trace, |trace|)))
    ensures InOrder(spec, deadlines) || NoSyncDropped(p) ==> RunInOrder(spec, trace, |trace|)
  {
    AcceptedGoesThroughIff(p, spec, table, requirements, deadlines, trace, events, prims, s);
    AcceptedRunsIff(p, spec, table, requirements, deadlines, trace, events, prims, s);
    if InOrder(spec, deadlines) {
      var k: nat :| Merges(trace, events, deadlines, k);
      MergeInOrder(spec, deadlines, trace, events, k);
    }
    if M.RunAll(spec, M.Interpreted(spec, prims), trace).Ok? {
      AcceptedRunComputes(p, spec, table, requirements, deadlines, trace, events, prims, s);
    }
  }

  // ---------- over all runs ----------

  /** All event-driven outputs are active in the event. */
  ghost predicate ActivatesAll(spec: M.Spec, event: M.Step) {
    && event.Event?
    && forall o | o in Flatten(spec.layers) :: Histories.IsActive(spec, o, Histories.Present(event.vals).Keys)
  }

  lemma {:induction false} AllActive(spec: M.Spec, order: seq<nat>, ins: set<nat>)
    requires forall o | o in order :: Histories.IsActive(spec, o, ins)
    ensures Histories.ActiveAmong(spec, order, ins) == order
    decreases |order|
  {
    if order != [] {
      AllActive(spec, order[1..], ins);
      assert order[0] in order;
    }
  }

  /** Every run of the program on typed events goes through. */
  ghost predicate AlwaysRuns(p: Program, spec: M.Spec, table: map<nat, nat>, deadlines: seq<Schedules.Deadline>,
                             prims: E.Prims, s: E.Signature)
    requires ClocksInferred(p)
  {
    forall trace, events | TypedMerge(p, spec, table, deadlines, trace, events, prims, s) ::
      M.RunAll(spec, M.Interpreted(spec, prims), trace).Ok?
  }

  lemma RunsOnlyInOrder(p: Program, spec: M.Spec, table: map<nat, nat>,
                        requirements: seq<BufferSizes.StorageRequirement>, deadlines: seq<Schedules.Deadline>,
                        prims: E.Prims, s: E.Signature, trace: seq<M.Step>, events: seq<M.Step>, n: nat)
    requires FreshAccesses.Accepted(p) && IsLowered(p, spec, table, requirements) && DroppedSyncStrict(p)
    requires TypedMerge(p, spec, table, deadlines, trace, events, prims, s) && n < |trace|
    requires AlwaysRuns(p, spec, table, deadlines, prims, s)
    ensures SyncInOrder(spec, Histories.StepOrder(spec, trace[n]))
  {
    AcceptedRunsIff(p, spec, table, requirements, deadlines, trace, events, prims, s);
  }

  lemma LayersInOrder(p: Program, spec: M.Spec, table: map<nat, nat>,
                      requirements: seq<BufferSizes.StorageRequirement>, deadlines: seq<Schedules.Deadline>,
                      prims: E.Prims, s: E.Signature, full: M.Step)
    requires FreshAccesses.Accepted(p) && IsLowered(p, spec, table, requirements) && DroppedSyncStrict(p)
    requires IsScheduleOf(p, table, deadlines) && TypedTotal(spec, prims, s)
    requires TypedInput(spec, s, full) && ActivatesAll(spec, full)
    requires AlwaysRuns(p, spec, table, deadlines, prims, s)
    ensures SyncInOrder(spec, Flatten(spec.layers))
  {
    EventMerges(deadlines, full);
    assert TypedMerge(p, spec, table, deadlines, [full], [full], prims, s);
    RunsOnlyInOrder(p, spec, table, requirements, deadlines, prims, s, [full], [full], 0);
    AllActive(spec, Flatten(spec.layers), Histories.Present(full.vals).Keys);
  }

  lemma NoEventsTyped(p: Program, spec: M.Spec, table: map<nat, nat>, deadlines: seq<Schedules.Deadline>,
                      trace: seq<M.Step>, prims: E.Prims, s: E.Signature)
    requires ClocksInferred(p) && IsScheduleOf(p, table, deadlines) && TypedTotal(spec, prims, s)
    requires MergesSome(trace, [], deadlines)
    ensures TypedMerge(p, spec, table, deadlines, trace, [], prims, s)
  {
  }

  lemma DueInOrder(p: Program, spec: M.Spec, table: map<nat, nat>,
                   requirements: seq<BufferSizes.StorageRequirement>, deadlines: seq<Schedules.Deadline>,
                   prims: E.Prims, s: E.Signature, m: nat)
    requires FreshAccesses.Accepted(p) && IsLowered(p, spec, table, requirements) && DroppedSyncStrict(p)
    requires IsScheduleOf(p, table, deadlines) && TypedTotal(spec, prims, s) && m < |deadlines|
    requires AlwaysRuns(p, spec, table, deadlines, prims, s)
    ensures SyncInOrder(spec, deadlines[m].due)
  {
    var trace, n := DeadlinesMerge(deadlines, m);
    NoEventsTyped(p, spec, table, deadlines, trace, prims, s);
    RunsOnlyInOrder(p, spec, table, requirements, deadlines, prims, s, trace, [], n);
  }

  /**
   Which accepted programs always run: if what is projected away is always performed, and some event
   activates all outputs, exactly those whose layers and deadlines have no synchronous read that comes too early.
   */
  lemma AlwaysRunsIff(p: Program, spec: M.Spec, table: map<nat, nat>,
                      requirements: seq<BufferSizes.StorageRequirement>, deadlines: seq<Schedules.Deadline>,
                      prims: E.Prims, s: E.Signature, full: M.Step)
    requires FreshAccesses.Accepted(p) && IsLowered(p, spec, table, requirements) && DroppedSyncStrict(p)
    requires IsScheduleOf(p, table, deadlines) && TypedTotal(spec, prims, s)
    requires TypedInput(spec, s, full) && ActivatesAll(spec, full)
    ensures AlwaysRuns(p, spec, table, deadlines, prims, s) <==> InOrder(spec, deadlines)
  {
    if InOrder(spec, deadlines) {
      forall trace, events | TypedMerge(p, spec, table, deadlines, trace, events, prims, s)
        ensures M.RunAll(spec, M.Interpreted(spec, prims), trace).Ok?
      {
        AcceptedProgramProgresses(p, spec, table, requirements, deadlines, trace, events, prims, s);
      }
    }
    if AlwaysRuns(p, spec, table, deadlines, prims, s) {
      LayersInOrder(p, spec, table, requirements, deadlines, prims, s, full);
      forall m | 0 <= m < |deadlines| ensures SyncInOrder(spec, deadlines[m].due) {
        DueInOrder(p, spec, table, requirements, deadlines, prims, s, m);
      }
    }
  }
}
