/**
 Progress: on an accepted, typed program with total operators, the evaluator gets through a merge of
 typed events with the deadlines of the schedule exactly if no synchronous read comes too early.
 */
module Progress {
  import opened Values
  import opened Sequences
  import opened Stores
  import opened WindowLogs
  import opened Rationals
  import opened Clocks
  import opened Activations
  import opened Lowering
  import opened Schedules
  import opened ScheduleCycles
  import opened Pipeline
  import opened TypedRuns
  import opened Controller
  import E = Expressions
  import M = Evaluator
  import BufferSizes
  import FreshAccesses
  import opened LateReads
  import D = Dependencies
  import Histories
  import Pruning
  import OneStep

  /** The specification is typed, and neither an operator nor a window panics on values of its types. */
  ghost predicate TypedTotal(spec: M.Spec, prims: E.Prims, s: E.Signature) {
    && E.TypedPrims(prims, s) && E.TotalPrims(prims, s) && TypedSpec(spec, s)
    && forall w | 0 <= w < |spec.windows| :: TotalWindow(spec.windows[w], ProducedType(spec, s, spec.windows[w].target))
  }

  /** The values of an event belong to known inputs and have their types. */
  ghost predicate TypedInput(spec: M.Spec, s: E.Signature, step: M.Step) {
    TypedStep(step, s) && (step.Event? ==> forall i | 0 <= i < |step.vals| && !step.vals[i].None? :: i < |spec.inputs|)
  }

  ghost predicate TypedInputs(spec: M.Spec, s: E.Signature, events: seq<M.Step>) {
    forall i | 0 <= i < |events| :: TypedInput(spec, s, events[i])
  }

  /** Within a step at `ts`, with all windows updated. */
  ghost predicate Ongoing(spec: M.Spec, s: E.Signature, st: M.State, ts: Time) {
    M.Shaped(spec, st) && TypedState(spec, st, s) && Evaluating(st, ts)
  }

  // ---------- one output ----------

  lemma PastServed(buffer: seq<Value>, isFresh: bool, k: nat)
    requires 1 <= k < 0x8000
    ensures LookupPast(buffer, isFresh, k).Ok?
  {
  }

  /** Offsets into the past are 16-bit numbers, and windows exist. */
  ghost predicate Addressable(spec: M.Spec) {
    forall o, a | 0 <= o < |spec.outputs| && a in E.Reads(spec.outputs[o].expr) ::
      match a
      case Now(_) => true
      case Past(_, k) => 1 <= k < 0x8000
      case Window(w) => w < |spec.windows|
  }

  /** With its synchronous targets fresh, no lookup of an output panics. */
  lemma ReadsAnswered(spec: M.Spec, prims: E.Prims, s: E.Signature, st: M.State, o: nat, ts: Time)
    requires TypedTotal(spec, prims, s) && Addressable(spec) && Ongoing(spec, s, st, ts)
    requires o < |spec.outputs| && forall x | x in E.SyncReads(spec.outputs[o].expr) :: M.IsFresh(st, x)
    ensures E.Ready(spec.outputs[o].expr, M.MachineCtx(spec, st, ts))
  {
    var c := M.MachineCtx(spec, st, ts);
    forall a | a in E.Reads(spec.outputs[o].expr) ensures E.Answered(a, c) {
      match a
      case Now(_) =>
      case Past(x, k) => PastServed(M.BufferOf(st, x), M.IsFresh(st, x), k);
      case Window(w) =>
        assert TotalWindow(spec.windows[w], ProducedType(spec, s, spec.windows[w].target));
        assert spec.windows[w].report(st.logs[w], ts).Ok?;
    }
  }

  lemma OutputProgresses(spec: M.Spec, prims: E.Prims, s: E.Signature, st: M.State, o: nat, ts: Time)
    requires TypedTotal(spec, prims, s) && Addressable(spec) && Ongoing(spec, s, st, ts)
    requires o < |spec.outputs| && forall x | x in E.SyncReads(spec.outputs[o].expr) :: M.IsFresh(st, x)
    ensures var r := M.EvalStream(spec, M.Interpreted(spec, prims), st, o, ts);
            r.Ok? && Ongoing(spec, s, r.value, ts)
  {
    ReadsAnswered(spec, prims, s, st, o, ts);
    MachineCtxTyped(spec, s, st, ts);
    E.EvalProgresses(prims, s, spec.outputs[o].expr, M.MachineCtx(spec, st, ts));
    StreamTyped(spec, prims, s, st, o, ts);
  }

  // ---------- one step ----------

  /** Everything that is read synchronously along the order is an accepted input or itself in the order. */
  ghost predicate SyncClosed(spec: M.Spec, order: seq<nat>, freshIn: set<nat>) {
    && (forall i | 0 <= i < |order| :: order[i] < |spec.outputs|)
    && forall i, x | 0 <= i < |order| && x in E.SyncReads(spec.outputs[order[i]].expr) ::
         M.Stored(spec, x) && if x.InRef? then x.ix in freshIn else x.ix in order
  }

  lemma PrefixEvaluates(spec: M.Spec, exec: M.Executor, st: M.State, order: seq<nat>, i: nat, ts: Time)
    requires M.Shaped(spec, st) && i < |order| && M.EvalStreams(spec, exec, st, order[..i], ts).Ok?
    ensures M.EvalStreams(spec, exec, st, order[..i + 1], ts)
            == M.EvalStream(spec, exec, M.EvalStreams(spec, exec, st, order[..i], ts).value, order[i], ts)
  {
    Histories.EvalStreamsConcat(spec, exec, st, order[..i], [order[i]], ts);
    assert order[..i] + [order[i]] == order[..i + 1];
    assert [order[i]][1..] == [];
  }

  lemma SyncTargetFresh(spec: M.Spec, exec: M.Executor, st: M.State, order: seq<nat>, i: nat, ts: Time, mid: M.State,
                        x: E.StreamRef)
    requires M.Shaped(spec, st) && SyncClosed(spec, order, st.freshIn) && SyncInOrder(spec, order) && i < |order|
    requires M.EvalStreams(spec, exec, st, order[..i], ts) == Ok(mid)
    requires x in E.SyncReads(spec.outputs[order[i]].expr)
    ensures M.IsFresh(mid, x)
  {
    if x.OutRef? {
      assert !ReadsLate(spec, order, i, x.ix);
    }
    FreshAccesses.FreshWhenEvaluated(spec, exec, st, order, i, ts, mid, x);
  }

  /** Outputs in an order closed under synchronous reads, none of which comes too early, all get a value. */
  lemma {:induction false} OrderProgresses(spec: M.Spec, prims: E.Prims, s: E.Signature, st: M.State, order: seq<nat>,
                                           n: nat, ts: Time)
    requires TypedTotal(spec, prims, s) && Addressable(spec) && Ongoing(spec, s, st, ts)
    requires SyncClosed(spec, order, st.freshIn) && SyncInOrder(spec, order) && n <= |order|
    ensures var r := M.EvalStreams(spec, M.Interpreted(spec, prims), st, order[..n], ts);
            r.Ok? && Ongoing(spec, s, r.value, ts)
  {
    var exec := M.Interpreted(spec, prims);
    if n > 0 {
      OrderProgresses(spec, prims, s, st, order, n - 1, ts);
      var mid := M.EvalStreams(spec, exec, st, order[..n - 1], ts).value;
      forall x | x in E.SyncReads(spec.outputs[order[n - 1]].expr) ensures M.IsFresh(mid, x) {
        SyncTargetFresh(spec, exec, st, order, n - 1, ts, mid, x);
      }
      OutputProgresses(spec, prims, s, mid, order[n - 1], ts);
      PrefixEvaluates(spec, exec, st, order, n - 1, ts);
    }
  }

  /**
   The evaluation of an order goes through exactly if no synchronous read comes too early; of the
   reads that do, every one must be performed always.
   */
  lemma OrderProgressesIff(spec: M.Spec, prims: E.Prims, s: E.Signature, st: M.State, order: seq<nat>, ts: Time)
    requires TypedTotal(spec, prims, s) && Addressable(spec) && Ongoing(spec, s, st, ts) && st.freshOut == {}
    requires SyncClosed(spec, order, st.freshIn)
    ensures var r := M.EvalStreams(spec, M.Interpreted(spec, prims), st, order, ts);
            && (SyncInOrder(spec, order) ==> r.Ok? && Ongoing(spec, s, r.value, ts))
            && (LateReadsStrict(spec, order) && r.Ok? ==> SyncInOrder(spec, order))
  {
    if SyncInOrder(spec, order) {
      OrderProgresses(spec, prims, s, st, order, |order|, ts);
      assert order[..|order|] == order;
    } else if LateReadsStrict(spec, order) {
      var i: nat, t: nat :| ReadsLate(spec, order, i, t);
      LateReadPanics(spec, prims, st, order, i, t, ts);
    }
  }

  /** The active outputs of an event are closed under synchronous reads. */
  lemma EventClosed(p: Program, spec: M.Spec, table: map<nat, nat>, requirements: seq<BufferSizes.StorageRequirement>,
                    ins: set<nat>)
    requires FreshAccesses.Accepted(p) && IsLowered(p, spec, table, requirements)
    ensures SyncClosed(spec, Histories.ActiveAmong(spec, Flatten(spec.layers), ins), ins)
  {
    var order := Histories.ActiveAmong(spec, Flatten(spec.layers), ins);
    forall i | 0 <= i < |order| ensures Histories.IsActive(spec, order[i], ins) {
      assert order[i] in order;
      Histories.ActiveAmongElements(spec, Flatten(spec.layers), ins, order[i]);
    }
    forall i, x | 0 <= i < |order| && x in E.SyncReads(spec.outputs[order[i]].expr)
      ensures M.Stored(spec, x) && if x.InRef? then x.ix in ins else x.ix in order
    {
      FreshAccesses.ActiveTarget(p, spec, table, requirements, ins, order[i], x);
      Histories.ActiveAmongElements(spec, Flatten(spec.layers), ins, x.ix);
      SyncTargetStored(p, spec, table, requirements, order[i], x);
    }
  }

  lemma SyncTargetStored(p: Program, spec: M.Spec, table: map<nat, nat>,
                         requirements: seq<BufferSizes.StorageRequirement>,
                         o: nat, x: E.StreamRef)
    requires FreshAccesses.Accepted(p) && IsLowered(p, spec, table, requirements)
    requires o < |spec.outputs| && x in E.SyncReads(spec.outputs[o].expr)
    ensures M.Stored(spec, x)
  {
    assert spec.outputs[o] == LowerOutput(p, requirements, o);
    assert FreshAccesses.AcceptedAccess(p, p.outputs[o].clock, x);
    BoundOfStream(p, requirements, spec.layers, x);
  }

  /** What is due at a deadline is closed under synchronous reads. */
  lemma DueClosed(p: Program, spec: M.Spec, table: map<nat, nat>, requirements: seq<BufferSizes.StorageRequirement>,
                  g: Rat, deadline: Schedules.Deadline, gap: nat, step: nat, freshIn: set<nat>)
    requires FreshAccesses.Accepted(p) && IsLowered(p, spec, table, requirements) && Positive(g)
    requires DeadlineExact(TimeDrivenOf(p, |p.outputs|), g, LayerOf(p, table), deadline, gap, step)
    ensures SyncClosed(spec, deadline.due, freshIn)
  {
    var order := deadline.due;
    forall i | 0 <= i < |order| ensures order[i] < |spec.outputs| {
      assert order[i] in order;
      DueKnown(p, table, g, deadline, gap, step, order[i]);
    }
    forall i, x | 0 <= i < |order| && x in E.SyncReads(spec.outputs[order[i]].expr)
      ensures M.Stored(spec, x) && x.OutRef? && x.ix in order
    {
      assert order[i] in order && spec.outputs[order[i]] == LowerOutput(p, requirements, order[i]);
      FreshAccesses.DueTarget(p, table, g, deadline, gap, step, order[i], x);
      SyncTargetStored(p, spec, table, requirements, order[i], x);
    }
  }

  lemma DueKnown(p: Program, table: map<nat, nat>, g: Rat, deadline: Schedules.Deadline, gap: nat, step: nat, o: nat)
    requires ClocksInferred(p) && Positive(g) && o in deadline.due
    requires DeadlineExact(TimeDrivenOf(p, |p.outputs|), g, LayerOf(p, table), deadline, gap, step)
    ensures o < |p.outputs|
  {
    var streams := TimeDrivenOf(p, |p.outputs|);
    TimeDrivenMembers(p, |p.outputs|);
    var j :| 0 <= j < |streams| && streams[j].reference == o;
  }

  /** The state between two steps. */
  ghost predicate Resting(spec: M.Spec, s: E.Signature, st: M.State) {
    M.Shaped(spec, st) && TypedState(spec, st, s)
  }

  /** The order of the step is closed under synchronous reads. */
  ghost predicate StepClosed(spec: M.Spec, step: M.Step) {
    SyncClosed(spec, Histories.StepOrder(spec, step), if step.Event? then Histories.Present(step.vals).Keys else {})
  }

  /**
   What happens to a step: it goes through if no synchronous read comes too early, and only then if
   those are strict.
   */
  ghost predicate StepVerdict(spec: M.Spec, s: E.Signature, step: M.Step, r: Outcome<M.State>) {
    var order := Histories.StepOrder(spec, step);
    && (SyncInOrder(spec, order) ==> r.Ok? && Resting(spec, s, r.value))
    && (LateReadsStrict(spec, order) && r.Ok? ==> SyncInOrder(spec, order))
  }

  lemma DeadlineProgresses(spec: M.Spec, prims: E.Prims, s: E.Signature, st: M.State, due: seq<nat>, ts: Time)
    requires TypedTotal(spec, prims, s) && Addressable(spec) && Resting(spec, s, st) && M.InOrder(st.last, ts)
    requires StepClosed(spec, M.Deadline(due, ts))
    ensures StepVerdict(spec, s, M.Deadline(due, ts),
                        M.RunStep(spec, M.Interpreted(spec, prims), st, M.Deadline(due, ts)))
  {
    assert M.Deadline(due, ts).due == due;
    StartedTyped(spec, s, st, ts);
    PrepareTyped(spec, s, Started(st, ts), ts);
    OrderProgressesIff(spec, prims, s, M.PrepareEvaluation(Started(st, ts), ts), due, ts);
  }

  lemma InputsAccepted(spec: M.Spec, s: E.Signature, st: M.State, vals: seq<Value>, ts: Time)
    requires Resting(spec, s, st) && st.last == Just(ts) && st.freshIn == {} && TypedInput(spec, s, M.Event(vals, ts))
    ensures var r := M.AcceptInputs(spec, st, vals, |vals|, ts);
            && r.Ok? && Resting(spec, s, r.value) && r.value.freshIn == Histories.Present(vals).Keys
            && r.value.last == Just(ts) && r.value.freshOut == st.freshOut
  {
    assert M.Event(vals, ts).vals == vals;
    Histories.AcceptInputsAccepts(spec, st, vals, |vals|, ts);
    assert Histories.PresentUpTo(vals, |vals|) == Histories.Present(vals);
    AcceptedTyped(spec, s, st, vals, |vals|, ts);
  }

  lemma EventProgresses(spec: M.Spec, prims: E.Prims, s: E.Signature, st: M.State, vals: seq<Value>, ts: Time)
    requires TypedTotal(spec, prims, s) && Addressable(spec) && Resting(spec, s, st) && M.InOrder(st.last, ts)
    requires TypedInput(spec, s, M.Event(vals, ts)) && Histories.AllRunnable(spec, Flatten(spec.layers))
    requires StepClosed(spec, M.Event(vals, ts))
    ensures StepVerdict(spec, s, M.Event(vals, ts),
                        M.RunStep(spec, M.Interpreted(spec, prims), st, M.Event(vals, ts)))
  {
    assert M.Event(vals, ts).vals == vals;
    StartedTyped(spec, s, st, ts);
    InputsAccepted(spec, s, Started(st, ts), vals, ts);
    var accepted := M.AcceptInputs(spec, Started(st, ts), vals, |vals|, ts).value;
    var prepared := M.PrepareEvaluation(accepted, ts);
    PrepareTyped(spec, s, accepted, ts);
    OrderProgressesIff(spec, prims, s, prepared, Histories.StepOrder(spec, M.Event(vals, ts)), ts);
    Histories.LayersEvaluateActive(spec, M.Interpreted(spec, prims), prepared, spec.layers, ts);
  }

  // ---------- whole runs ----------

  /** Every step of a run is typed and closed under synchronous reads, and every condition can be evaluated. */
  ghost predicate Closed(spec: M.Spec, s: E.Signature, run: seq<M.Step>) {
    && Histories.AllRunnable(spec, Flatten(spec.layers))
    && forall n | 0 <= n < |run| :: StepClosed(spec, run[n]) && TypedInput(spec, s, run[n])
  }

  /** In the first `n` steps no synchronous read comes too early. */
  ghost predicate RunInOrder(spec: M.Spec, run: seq<M.Step>, n: nat)
    requires n <= |run|
  {
    forall m | 0 <= m < n :: SyncInOrder(spec, Histories.StepOrder(spec, run[m]))
  }

  ghost predicate RunLateStrict(spec: M.Spec, run: seq<M.Step>) {
    forall m | 0 <= m < |run| :: LateReadsStrict(spec, Histories.StepOrder(spec, run[m]))
  }

  lemma StepProgresses(spec: M.Spec, prims: E.Prims, s: E.Signature, st: M.State, run: seq<M.Step>, n: nat)
    requires TypedTotal(spec, prims, s) && Addressable(spec) && Resting(spec, s, st)
    requires Closed(spec, s, run) && n < |run| && M.InOrder(st.last, run[n].ts)
    ensures StepVerdict(spec, s, run[n], M.RunStep(spec, M.Interpreted(spec, prims), st, run[n]))
  {
    assert StepClosed(spec, run[n]) && TypedInput(spec, s, run[n]);
    match run[n]
    case Event(vals, ts) => EventProgresses(spec, prims, s, st, vals, ts);
    case Deadline(due, ts) => DeadlineProgresses(spec, prims, s, st, due, ts);
  }

  /** A prefix of a run goes through if no synchronous read comes too early, and only then if those are strict. */
  ghost predicate RunVerdict(spec: M.Spec, s: E.Signature, run: seq<M.Step>, n: nat, r: Outcome<M.State>)
    requires n <= |run|
  {
    && (RunInOrder(spec, run, n) ==> r.Ok? && Resting(spec, s, r.value))
    && (RunLateStrict(spec, run) && r.Ok? ==> RunInOrder(spec, run, n))
  }

  /** One more step of a run in time order. */
  lemma RunNext(spec: M.Spec, exec: M.Executor, run: seq<M.Step>, n: nat)
    requires TimesAscend(run) && n < |run|
    ensures var before := M.RunAll(spec, exec, run[..n]);
            && M.RunAll(spec, exec, run[..n + 1])
               == (if before.Panic? then Panic else M.RunStep(spec, exec, before.value, run[n]))
            && (before.Ok? ==> M.InOrder(before.value.last, run[n].ts))
  {
    assert run[..n + 1][..n] == run[..n];
    assert n > 0 ==> run[..n][n - 1] == run[n - 1];
  }

  lemma {:induction false} RunProgresses(spec: M.Spec, prims: E.Prims, s: E.Signature, run: seq<M.Step>, n: nat)
    requires TypedTotal(spec, prims, s) && Addressable(spec) && Closed(spec, s, run)
    requires TimesAscend(run) && n <= |run|
    ensures RunVerdict(spec, s, run, n, M.RunAll(spec, M.Interpreted(spec, prims), run[..n]))
  {
    if n == 0 {
      InitiallyTyped(spec, s);
    } else {
      RunProgresses(spec, prims, s, run, n - 1);
      RunNext(spec, M.Interpreted(spec, prims), run, n - 1);
      NextVerdict(spec, prims, s, run, n - 1, M.RunAll(spec, M.Interpreted(spec, prims), run[..n - 1]));
    }
  }

  lemma NextInOrder(spec: M.Spec, run: seq<M.Step>, n: nat)
    requires n < |run|
    ensures RunInOrder(spec, run, n + 1) <==>
            RunInOrder(spec, run, n) && SyncInOrder(spec, Histories.StepOrder(spec, run[n]))
  {
  }

  lemma NextVerdict(spec: M.Spec, prims: E.Prims, s: E.Signature, run: seq<M.Step>, n: nat, before: Outcome<M.State>)
    requires TypedTotal(spec, prims, s) && Addressable(spec) && Closed(spec, s, run) && n < |run|
    requires RunVerdict(spec, s, run, n, before)
    requires before.Ok? ==> M.Shaped(spec, before.value) && M.InOrder(before.value.last, run[n].ts)
    ensures RunVerdict(spec, s, run, n + 1,
                       if before.Panic? then Panic
                       else M.RunStep(spec, M.Interpreted(spec, prims), before.value, run[n]))
  {
    NextInOrder(spec, run, n);
    if before.Ok? && RunInOrder(spec, run, n) {
      StepProgresses(spec, prims, s, before.value, run, n);
      StepVerdicts(spec, s, run, n, M.RunStep(spec, M.Interpreted(spec, prims), before.value, run[n]));
    }
  }

  lemma StepVerdicts(spec: M.Spec, s: E.Signature, run: seq<M.Step>, n: nat, r: Outcome<M.State>)
    requires n < |run| && StepVerdict(spec, s, run[n], r) && RunInOrder(spec, run, n)
    ensures RunVerdict(spec, s, run, n + 1, r)
  {
    NextInOrder(spec, run, n);
  }

  /**
   Exactly when a typed run goes through: if no synchronous read comes too early in any step; and,
   when every read that does is always performed, only then.
   */
  lemma RunProgressesIff(spec: M.Spec, prims: E.Prims, s: E.Signature, run: seq<M.Step>)
    requires TypedTotal(spec, prims, s) && Addressable(spec) && Closed(spec, s, run) && TimesAscend(run)
    ensures RunInOrder(spec, run, |run|) ==> M.RunAll(spec, M.Interpreted(spec, prims), run).Ok?
    ensures RunLateStrict(spec, run) ==>
              (M.RunAll(spec, M.Interpreted(spec, prims), run).Ok? <==> RunInOrder(spec, run, |run|))
  {
    RunProgresses(spec, prims, s, run, |run|);
    assert run[..|run|] == run;
  }

  // ---------- accepted programs ----------

  lemma CheckedAddressable(p: Program, spec: M.Spec, table: map<nat, nat>,
                           requirements: seq<BufferSizes.StorageRequirement>)
    requires Checked(p) && IsLowered(p, spec, table, requirements)
    ensures Addressable(spec)
  {
    forall o, a | 0 <= o < |spec.outputs| && a in E.Reads(spec.outputs[o].expr)
      ensures a.Past? ==> 1 <= a.k < 0x8000
      ensures a.Window? ==> a.w < |spec.windows|
    {
      assert spec.outputs[o] == LowerOutput(p, requirements, o);
      assert KnownAccess(p, a);
    }
  }

  lemma LayersRunnable(p: Program, spec: M.Spec, table: map<nat, nat>,
                       requirements: seq<BufferSizes.StorageRequirement>)
    requires Checked(p) && IsLowered(p, spec, table, requirements)
    ensures Histories.AllRunnable(spec, Flatten(spec.layers))
  {
    forall o: nat | o in Flatten(spec.layers)
      ensures o < |spec.outputs| && spec.outputs[o].clock.EventDriven? && Runnable(spec.outputs[o].clock.ac)
    {
      LayerRunnable(p, spec, table, requirements, o);
    }
  }

  lemma LayerRunnable(p: Program, spec: M.Spec, table: map<nat, nat>,
                      requirements: seq<BufferSizes.StorageRequirement>, o: nat)
    requires Checked(p) && IsLowered(p, spec, table, requirements) && o in Flatten(spec.layers)
    ensures o < |spec.outputs| && spec.outputs[o].clock.EventDriven? && Runnable(spec.outputs[o].clock.ac)
  {
    assert IsEventDriven(p, o) && ClockInferred(p.outputs[o].clock);
    assert spec.outputs[o] == LowerOutput(p, requirements, o);
  }

  /** Every merge of typed events with the deadlines of the schedule is closed. */
  lemma MergeClosed(p: Program, spec: M.Spec, table: map<nat, nat>, requirements: seq<BufferSizes.StorageRequirement>,
                    g: Rat, deadlines: seq<Schedules.Deadline>, trace: seq<M.Step>, events: seq<M.Step>, k: nat,
                    s: E.Signature)
    requires FreshAccesses.Accepted(p) && IsLowered(p, spec, table, requirements)
    requires ExactDeadlines(p, table, deadlines, g) && Merges(trace, events, deadlines, k)
    requires TypedInputs(spec, s, events)
    ensures Closed(spec, s, trace)
  {
    LayersRunnable(p, spec, table, requirements);
    forall n | 0 <= n < |trace| ensures StepClosed(spec, trace[n]) && TypedInput(spec, s, trace[n]) {
      MembersOf(trace, n);
      if trace[n].Event? {
        EventClosed(p, spec, table, requirements, Histories.Present(trace[n].vals).Keys);
        var i :| 0 <= i < |events| && events[i] == trace[n];
      } else {
        DeadlineFromCycle(deadlines, k, trace[n]);
        var m :| 0 <= m < |deadlines| && trace[n].due == deadlines[m].due;
        var streams := TimeDrivenOf(p, |p.outputs|);
        assert ExactForSomeStep(streams, g, LayerOf(p, table), deadlines[m]);
        var gap, step: nat :| DeadlineExact(streams, g, LayerOf(p, table), deadlines[m], gap, step);
        DueClosed(p, spec, table, requirements, g, deadlines[m], gap, step, {});
      }
    }
  }

  /** A synchronous read that has an edge in the dependency graph, or is always performed. */
  ghost predicate EdgeOrStrict(e: E.Expr, x: E.StreamRef) {
    E.Now(x) in D.KeptReads(e) || x in StrictSync(e)
  }

  /** Every synchronous read that is projected away is always performed. */
  ghost predicate DroppedSyncStrict(p: Program) {
    forall o, x | 0 <= o < |p.outputs| && x in E.SyncReads(p.outputs[o].expr) :: EdgeOrStrict(p.outputs[o].expr, x)
  }

  /** No synchronous read is projected away. */
  ghost predicate NoSyncDropped(p: Program) {
    forall o, x | 0 <= o < |p.outputs| && x in E.SyncReads(p.outputs[o].expr) ::
          E.Now(x) in D.KeptReads(p.outputs[o].expr)
  }

  /** A read with an edge never comes too early. */
  lemma LateIsDropped(p: Program, spec: M.Spec, table: map<nat, nat>, requirements: seq<BufferSizes.StorageRequirement>,
                      order: seq<nat>, i: nat, t: nat)
    requires Checked(p) && IsLowered(p, spec, table, requirements)
    requires OneStep.Topological(Pruning.Pruned(spec), order) && ReadsLate(spec, order, i, t)
    ensures E.Now(E.OutRef(t)) !in D.KeptReads(spec.outputs[order[i]].expr)
  {
    if E.Now(E.OutRef(t)) in D.KeptReads(spec.outputs[order[i]].expr) {
      Pruning.PrunedReads(spec.outputs[order[i]].expr);
      FreshAccesses.TargetIsEarlier(Pruning.Pruned(spec), order, i, t);
    }
  }

  /** What holds of the order of every step of a merge. */
  lemma StepOrderVerdict(p: Program, spec: M.Spec, table: map<nat, nat>,
                         requirements: seq<BufferSizes.StorageRequirement>, order: seq<nat>)
    requires Checked(p) && IsLowered(p, spec, table, requirements)
    requires OneStep.Topological(Pruning.Pruned(spec), order)
    ensures DroppedSyncStrict(p) ==> LateReadsStrict(spec, order)
    ensures NoSyncDropped(p) ==> SyncInOrder(spec, order)
  {
    forall i: nat, t: nat | ReadsLate(spec, order, i, t)
      ensures !NoSyncDropped(p)
      ensures DroppedSyncStrict(p) ==> E.OutRef(t) in StrictSync(spec.outputs[order[i]].expr)
    {
      LateIsDropped(p, spec, table, requirements, order, i, t);
      assert spec.outputs[order[i]] == LowerOutput(p, requirements, order[i]);
      assert DroppedSyncStrict(p) ==> EdgeOrStrict(p.outputs[order[i]].expr, E.OutRef(t));
    }
  }

  lemma MergeOrders(p: Program, spec: M.Spec, table: map<nat, nat>, requirements: seq<BufferSizes.StorageRequirement>,
                    g: Rat, deadlines: seq<Schedules.Deadline>, trace: seq<M.Step>, events: seq<M.Step>, k: nat, n: nat)
    requires Checked(p) && IsLowered(p, spec, table, requirements) && n < |trace|
    requires ExactDeadlines(p, table, deadlines, g) && Merges(trace, events, deadlines, k)
    ensures OneStep.Topological(Pruning.Pruned(spec), Histories.StepOrder(spec, trace[n]))
  {
    var pruned := Pruning.Pruned(spec);
    PrunedIsAdmissible(p, spec, table, requirements);
    MergeIsWellOrdered(p, pruned, table, g, deadlines, trace, events, k);
    Pruning.StepOrderPruned(spec, trace[n]);
    if trace[n].Event? {
      Histories.ActiveAmongTopological(pruned, Flatten(pruned.layers), Histories.Present(trace[n].vals).Keys);
    }
  }

  /** No synchronous read comes too early in the layers, nor in a deadline of the schedule. */
  ghost predicate InOrder(spec: M.Spec, deadlines: seq<Schedules.Deadline>) {
    SyncInOrder(spec, Flatten(spec.layers)) && forall m | 0 <= m < |deadlines| :: SyncInOrder(spec, deadlines[m].due)
  }

  /** Then none does in any merge. */
  lemma MergeInOrder(spec: M.Spec, deadlines: seq<Schedules.Deadline>, trace: seq<M.Step>, events: seq<M.Step>, k: nat)
    requires InOrder(spec, deadlines) && Merges(trace, events, deadlines, k)
    ensures RunInOrder(spec, trace, |trace|)
  {
    forall n | 0 <= n < |trace| ensures SyncInOrder(spec, Histories.StepOrder(spec, trace[n])) {
      MembersOf(trace, n);
      if trace[n].Event? {
        ActiveInOrder(spec, Flatten(spec.layers), Histories.Present(trace[n].vals).Keys);
      } else {
        DeadlineFromCycle(deadlines, k, trace[n]);
        var m :| 0 <= m < |deadlines| && trace[n].due == deadlines[m].due;
      }
    }
  }

  /** If no synchronous read is projected away, none comes too early. */
  lemma NothingLate(p: Program, spec: M.Spec, table: map<nat, nat>, requirements: seq<BufferSizes.StorageRequirement>,
                    deadlines: seq<Schedules.Deadline>)
    requires Checked(p) && IsLowered(p, spec, table, requirements) && IsScheduleOf(p, table, deadlines)
    requires NoSyncDropped(p)
    ensures InOrder(spec, deadlines)
  {
    var g := ScheduleIsExact(p, table, deadlines);
    PrunedIsAdmissible(p, spec, table, requirements);
    LayersAreTopological(p, Pruning.Pruned(spec), table);
    StepOrderVerdict(p, spec, table, requirements, Flatten(spec.layers));
    forall m | 0 <= m < |deadlines| ensures SyncInOrder(spec, deadlines[m].due) {
      var streams := TimeDrivenOf(p, |p.outputs|);
      assert ExactForSomeStep(streams, g, LayerOf(p, table), deadlines[m]);
      var gap, step: nat :| DeadlineExact(streams, g, LayerOf(p, table), deadlines[m], gap, step);
      DueIsTopological(p, Pruning.Pruned(spec), table, g, deadlines[m], gap, step);
      StepOrderVerdict(p, spec, table, requirements, deadlines[m].due);
    }
  }

  /**
   Exactly when an accepted program runs: along every merge of typed events, in time order, with the
   deadlines of its schedule, the run goes through if no output reads synchronously an output that is
   evaluated after it in the same step. Only reads that are projected away can come too early, and if
   those are always performed, the run goes through only then.
   */
  lemma AcceptedRunsIff(p: Program, spec: M.Spec, table: map<nat, nat>,
                        requirements: seq<BufferSizes.StorageRequirement>, deadlines: seq<Schedules.Deadline>,
                        trace: seq<M.Step>, events: seq<M.Step>, prims: E.Prims, s: E.Signature)
    requires FreshAccesses.Accepted(p) && IsLowered(p, spec, table, requirements)
    requires IsScheduleOf(p, table, deadlines) && MergesSome(trace, events, deadlines) && TimesAscend(events)
    requires TypedTotal(spec, prims, s) && TypedInputs(spec, s, events)
    ensures RunInOrder(spec, trace, |trace|) ==> M.RunAll(spec, M.Interpreted(spec, prims), trace).Ok?
    ensures DroppedSyncStrict(p) ==>
              (M.RunAll(spec, M.Interpreted(spec, prims), trace).Ok? <==> RunInOrder(spec, trace, |trace|))
    ensures NoSyncDropped(p) ==> RunInOrder(spec, trace, |trace|)
  {
    var g := ScheduleIsExact(p, table, deadlines);
    var k: nat :| Merges(trace, events, deadlines, k);
    MergeClosed(p, spec, table, requirements, g, deadlines, trace, events, k, s);
    MergeTimesAscend(trace, events, deadlines, k);
    CheckedAddressable(p, spec, table, requirements);
    RunProgressesIff(spec, prims, s, trace);
    MergeVerdict(p, spec, table, requirements, g, deadlines, trace, events, k);
  }

  lemma MergeVerdict(p: Program, spec: M.Spec, table: map<nat, nat>, requirements: seq<BufferSizes.StorageRequirement>,
                     g: Rat, deadlines: seq<Schedules.Deadline>, trace: seq<M.Step>, events: seq<M.Step>, k: nat)
    requires Checked(p) && IsLowered(p, spec, table, requirements)
    requires ExactDeadlines(p, table, deadlines, g) && Merges(trace, events, deadlines, k)
    ensures DroppedSyncStrict(p) ==> RunLateStrict(spec, trace)
    ensures NoSyncDropped(p) ==> RunInOrder(spec, trace, |trace|)
  {
    forall n | 0 <= n < |trace|
      ensures DroppedSyncStrict(p) ==> LateReadsStrict(spec, Histories.StepOrder(spec, trace[n]))
      ensures NoSyncDropped(p) ==> SyncInOrder(spec, Histories.StepOrder(spec, trace[n]))
    {
      MergeOrders(p, spec, table, requirements, g, deadlines, trace, events, k, n);
      StepOrderVerdict(p, spec, table, requirements, Histories.StepOrder(spec, trace[n]));
    }
  }
}
